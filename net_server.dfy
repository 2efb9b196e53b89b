/** server_interface<T> of NetCommon/net_server.hpp, without asio.

    The roster m_deqConnections is a sequence of nullable entries; an entry
    records what the server reads of a connection: its identifier and
    whether its socket is open.  The virtual hooks (OnClientConnect,
    OnClientDisconnect, OnMessage) and the calls to a connection's Send are
    recorded, in order, in the output log `effects`; the answer of the veto
    hook OnClientConnect is an input of the accept handler. */
module NetServer {
  import opened Common
  import opened NetMessage
  import opened NetTsQueue

  /** The initial value of nIDCounter. */
  const FirstId: nat := 10000

  /** SIZE_MAX of a 64-bit size_t. */
  const SizeMax: nat := 0xFFFF_FFFF_FFFF_FFFF

  /** Conversion of an integer argument to size_t (modulo 2^64), as happens
      to Update's default argument -1. */
  function ToSizeT(n: int): (r: nat)
    ensures r <= SizeMax
    ensures 0 <= n <= SizeMax ==> r == n
    ensures n == -1 ==> r == SizeMax
  {
    n % (SizeMax + 1)
  }

  /** What the server sees of a connection in its roster. */
  datatype ConnRec = ConnRec(id: u32, connected: bool)

  /** One observable effect of the server, in the order it happens. */
  datatype Effect =
    | ConnectAsked                                     // OnClientConnect(newconn)
    | Sent(to: u32, msg: Message)                      // client->Send(msg)
    | Disconnected(client: Option<ConnRec>)            // OnClientDisconnect(client)
    | Dispatched(remote: Option<u32>, msg: Message)    // OnMessage(msg.remote, msg.msg)

  /** `client && client->IsConnected()` */
  predicate IsLive(e: Option<ConnRec>)
    ensures IsLive(e) ==> e.Some?
  {
    e.Some? && e.value.connected
  }

  /** Which roster entries a pass of std::remove keeps. */
  datatype Sieve =
    | LiveOnly                     // the connected entries
    | DeadOnly                     // the null or disconnected entries
    | Except(x: Option<ConnRec>)   // every entry but those equal to x

  predicate Passes(s: Sieve, e: Option<ConnRec>)
  {
    match s
    case LiveOnly => IsLive(e)
    case DeadOnly => !IsLive(e)
    case Except(x) => e != x
  }

  /** The entries of `r` that pass `s`, in their order in `r`
      (std::remove followed by erase). */
  function Sift(r: seq<Option<ConnRec>>, s: Sieve): (k: seq<Option<ConnRec>>)
    ensures |k| <= |r|
  {
    if r == [] then []
    else Sift(r[..|r| - 1], s) + (if Passes(s, r[|r| - 1]) then [r[|r| - 1]] else [])
  }

  lemma SiftSnoc(r: seq<Option<ConnRec>>, e: Option<ConnRec>, s: Sieve)
    ensures Sift(r + [e], s) == Sift(r, s) + (if Passes(s, e) then [e] else [])
  {
    assert (r + [e])[..|r|] == r;
  }

  /** Exactly the entries of `r` that pass the sieve survive. */
  lemma {:induction false} SiftMembers(r: seq<Option<ConnRec>>, s: Sieve)
    ensures forall e :: e in Sift(r, s) <==> e in r && Passes(s, e)
  {
    if r != [] {
      var p := r[..|r| - 1];
      SiftMembers(p, s);
      assert r == p + [r[|r| - 1]];
    }
  }

  /** A sieve that every entry passes leaves the roster as it is. */
  lemma {:induction false} SiftAllPass(r: seq<Option<ConnRec>>, s: Sieve)
    requires forall i :: 0 <= i < |r| ==> Passes(s, r[i])
    ensures Sift(r, s) == r
  {
    if r != [] {
      SiftAllPass(r[..|r| - 1], s);
      assert r == r[..|r| - 1] + [r[|r| - 1]];
    }
  }

  /** Every entry of the roster is a connection. */
  ghost predicate AllPresent(r: seq<Option<ConnRec>>)
  {
    forall i :: 0 <= i < |r| ==> r[i].Some?
  }

  /** The identifier of the i-th entry of the roster, when it is one. */
  function IdAt(r: seq<Option<ConnRec>>, i: int): int
  {
    if 0 <= i < |r| && r[i].Some? then r[i].value.id as int else -1
  }

  /** The identifiers along the roster are strictly increasing. */
  ghost predicate IdsIncreasing(r: seq<Option<ConnRec>>)
  {
    && AllPresent(r)
    && forall i, j :: 0 <= i < j < |r| ==> IdAt(r, i) < IdAt(r, j)
  }

  /** Every identifier in the roster lies in [lo, hi). */
  ghost predicate IdsWithin(r: seq<Option<ConnRec>>, lo: int, hi: int)
  {
    forall i :: 0 <= i < |r| ==> lo <= IdAt(r, i) < hi
  }

  /** A prefix of a roster keeps its identifiers in order and in range. */
  lemma IdsPrefix(r: seq<Option<ConnRec>>, n: nat, lo: int, hi: int)
    requires n <= |r|
    ensures IdsIncreasing(r) ==> IdsIncreasing(r[..n])
    ensures IdsWithin(r, lo, hi) ==> IdsWithin(r[..n], lo, hi)
  {
    assert forall i :: 0 <= i < n ==> IdAt(r[..n], i) == IdAt(r, i);
  }

  /** Identifiers stay in order and in range when an entry with a larger
      identifier in range joins at the back. */
  lemma IdsSnoc(r: seq<Option<ConnRec>>, e: Option<ConnRec>, lo: int, hi: int)
    requires IdsIncreasing(r) && IdsWithin(r, lo, hi)
    requires e.Some? && lo <= e.value.id as int < hi
    requires forall i :: 0 <= i < |r| ==> IdAt(r, i) < e.value.id as int
    ensures IdsIncreasing(r + [e]) && IdsWithin(r + [e], lo, hi)
  {
    var t := r + [e];
    assert forall i :: 0 <= i < |r| ==> IdAt(t, i) == IdAt(r, i);
    assert IdAt(t, |r|) == e.value.id as int;
  }

  /** Sifting keeps the identifiers increasing and within their range. */
  lemma {:induction false} SiftKeepsIds(r: seq<Option<ConnRec>>, s: Sieve, lo: int, hi: int)
    requires IdsIncreasing(r) && IdsWithin(r, lo, hi)
    ensures IdsIncreasing(Sift(r, s)) && IdsWithin(Sift(r, s), lo, hi)
  {
    if r != [] {
      var p, l := r[..|r| - 1], r[|r| - 1];
      IdsPrefix(r, |r| - 1, lo, hi);
      SiftKeepsIds(p, s, lo, hi);
      if Passes(s, l) {
        SiftMembers(p, s);
        var q := Sift(p, s);
        forall i | 0 <= i < |q| ensures IdAt(q, i) < l.value.id as int {
          assert q[i] in p;
          var k :| 0 <= k < |p| && p[k] == q[i];
          assert IdAt(q, i) == IdAt(r, k);
          assert IdAt(r, |r| - 1) == l.value.id as int;
        }
        assert IdAt(r, |r| - 1) == l.value.id as int;
        IdsSnoc(q, l, lo, hi);
        assert Sift(r, s) == q + [l];
      } else {
        assert Sift(r, s) == Sift(p, s);
      }
    }
  }

  /** The roster invariant of the server: `issued` identifiers have been
      handed out, FirstId first; while the counter has not wrapped, the
      roster's identifiers are among them and increase along the roster. */
  ghost predicate RosterInv(r: seq<Option<ConnRec>>, issued: nat)
  {
    && AllPresent(r)
    && (FirstId + issued <= U32Limit ==> IdsIncreasing(r) && IdsWithin(r, FirstId, FirstId + issued))
  }

  /** Erasing entries keeps the roster invariant. */
  lemma SiftKeepsRosterInv(r: seq<Option<ConnRec>>, issued: nat, s: Sieve)
    requires RosterInv(r, issued)
    ensures RosterInv(Sift(r, s), issued)
  {
    SiftMembers(r, s);
    var t := Sift(r, s);
    forall i | 0 <= i < |t| ensures t[i].Some? {
      assert t[i] in r;
    }
    if FirstId + issued <= U32Limit {
      SiftKeepsIds(r, s, FirstId, FirstId + issued);
    }
  }

  /** An approved connection takes the next identifier, larger than every
      identifier in the roster, at the back. */
  lemma AcceptKeepsRosterInv(r: seq<Option<ConnRec>>, issued: nat)
    requires RosterInv(r, issued)
    ensures RosterInv(r + [Some(ConnRec(ToU32(FirstId + issued), true))], issued + 1)
  {
    var e := Some(ConnRec(ToU32(FirstId + issued), true));
    if FirstId + issued + 1 <= U32Limit {
      assert IdsWithin(r, FirstId, FirstId + issued + 1) by {
        assert forall i :: 0 <= i < |r| ==> FirstId <= IdAt(r, i) < FirstId + issued;
      }
      IdsSnoc(r, e, FirstId, FirstId + issued + 1);
    }
  }

  /** A socket closing keeps the roster invariant. */
  lemma DropKeepsRosterInv(r: seq<Option<ConnRec>>, issued: nat, i: nat)
    requires RosterInv(r, issued) && i < |r|
    ensures RosterInv(r[i := Some(r[i].value.(connected := false))], issued)
  {
    var t := r[i := Some(r[i].value.(connected := false))];
    assert forall k :: 0 <= k < |r| ==> IdAt(t, k) == IdAt(r, k);
  }

  /** Identifiers that increase along the roster are distinct. */
  lemma IncreasingIdsDistinct(r: seq<Option<ConnRec>>, i: nat, j: nat)
    requires IdsIncreasing(r) && i < |r| && j < |r| && i != j
    ensures r[i].value.id != r[j].value.id
  {
    if i < j {
      assert IdAt(r, i) < IdAt(r, j);
    } else {
      assert IdAt(r, j) < IdAt(r, i);
    }
  }

  /** MessageClient as written erases only the null entries, and a roster
      that the invariant keeps free of them is left as it was: a client that
      is no longer connected stays in the roster after it was reported. */
  lemma {:induction false} DeadClientKept(r: seq<Option<ConnRec>>, issued: nat, client: Option<ConnRec>)
    requires RosterInv(r, issued) && client in r
    ensures Sift(r, Except(None)) == r
    ensures client in Sift(r, Except(None))
  {
    SiftAllPass(r, Except(None));
  }

  /** A concrete instance: the roster holds one client whose socket has
      closed; after MessageClient reports it, it is still there. */
  lemma DeadClientKeptExample()
    ensures var dead := Some(ConnRec(FirstId as u32, false));
            !IsLive(dead) && Sift([dead], Except(None)) == [dead]
  {
    DeadClientKept([Some(ConnRec(FirstId as u32, false))], 1, Some(ConnRec(FirstId as u32, false)));
  }

  /** `c` stands for a connection handle a caller holds: null, a roster
      entry as the roster has it, or a connection whose identifier no roster
      entry carries.  Comparing such values is comparing the handles. */
  predicate Designates(r: seq<Option<ConnRec>>, c: Option<ConnRec>)
  {
    c.None? || c in r || forall i :: 0 <= i < |r| ==> IdAt(r, i) != c.value.id as int
  }

  /** What one iteration of the MessageAllClients loop does for entry `e`:
      Send to a live entry unless it is the ignored one; report any other
      entry as disconnected. */
  function EntryEffects(e: Option<ConnRec>, msg: Message, ignore: Option<ConnRec>): (es: seq<Effect>)
    ensures |es| <= 1
    ensures es == [] <==> IsLive(e) && e == ignore
  {
    if IsLive(e) then (if e != ignore then [Sent(e.value.id, msg)] else [])
    else [Disconnected(e)]
  }

  /** The sends and reports of the MessageAllClients loop over `r`, in
      order: one per entry, except none for a live ignored entry. */
  function BroadcastEffects(r: seq<Option<ConnRec>>, msg: Message, ignore: Option<ConnRec>): (es: seq<Effect>)
    ensures |es| <= |r|
  {
    if r == [] then []
    else BroadcastEffects(r[..|r| - 1], msg, ignore) + EntryEffects(r[|r| - 1], msg, ignore)
  }

  /** A broadcast logs only sends and reports, and exactly one of them per
      entry when the ignored handle is not a live entry of the roster. */
  lemma {:induction false} BroadcastEffectsShape(r: seq<Option<ConnRec>>, msg: Message, ignore: Option<ConnRec>)
    ensures forall k :: 0 <= k < |BroadcastEffects(r, msg, ignore)| ==>
              BroadcastEffects(r, msg, ignore)[k].Sent? || BroadcastEffects(r, msg, ignore)[k].Disconnected?
    ensures (forall i :: 0 <= i < |r| ==> !IsLive(r[i]) || r[i] != ignore) ==>
              |BroadcastEffects(r, msg, ignore)| == |r|
  {
    if r != [] {
      var p := r[..|r| - 1];
      BroadcastEffectsShape(p, msg, ignore);
      if forall i :: 0 <= i < |r| ==> !IsLive(r[i]) || r[i] != ignore {
        assert forall i :: 0 <= i < |p| ==> p[i] == r[i];
      }
    }
  }

  /** The identifiers of the Sent effects, in order. */
  function SentIds(es: seq<Effect>): seq<u32>
  {
    if es == [] then []
    else SentIds(es[..|es| - 1]) + (if es[|es| - 1].Sent? then [es[|es| - 1].to] else [])
  }

  /** The clients of the Disconnected effects, in order. */
  function DisconnectedClients(es: seq<Effect>): seq<Option<ConnRec>>
  {
    if es == [] then []
    else DisconnectedClients(es[..|es| - 1])
         + (if es[|es| - 1].Disconnected? then [es[|es| - 1].client] else [])
  }

  lemma {:induction false} SentIdsAppend(a: seq<Effect>, b: seq<Effect>)
    ensures SentIds(a + b) == SentIds(a) + SentIds(b)
    decreases |b|
  {
    if b != [] {
      var b' := b[..|b| - 1];
      SentIdsAppend(a, b');
      assert (a + b)[..|a + b| - 1] == a + b';
    } else {
      assert a + b == a;
    }
  }

  lemma {:induction false} DisconnectedClientsAppend(a: seq<Effect>, b: seq<Effect>)
    ensures DisconnectedClients(a + b) == DisconnectedClients(a) + DisconnectedClients(b)
    decreases |b|
  {
    if b != [] {
      var b' := b[..|b| - 1];
      DisconnectedClientsAppend(a, b');
      assert (a + b)[..|a + b| - 1] == a + b';
    } else {
      assert a + b == a;
    }
  }

  /** The identifiers of the live entries other than the ignored one, in
      roster order. */
  function Recipients(r: seq<Option<ConnRec>>, ignore: Option<ConnRec>): seq<u32>
  {
    if r == [] then []
    else Recipients(r[..|r| - 1], ignore)
         + (if IsLive(r[|r| - 1]) && r[|r| - 1] != ignore then [r[|r| - 1].value.id] else [])
  }

  /** An identifier is a recipient exactly when some live, non-ignored
      entry carries it. */
  lemma {:induction false} RecipientsMembers(r: seq<Option<ConnRec>>, ignore: Option<ConnRec>)
    ensures forall x :: x in Recipients(r, ignore) <==>
                          exists i :: 0 <= i < |r| && IsLive(r[i]) && r[i] != ignore && r[i].value.id == x
  {
    if r != [] {
      var p, l := r[..|r| - 1], r[|r| - 1];
      RecipientsMembers(p, ignore);
      forall x
        ensures x in Recipients(r, ignore) <==>
                exists i :: 0 <= i < |r| && IsLive(r[i]) && r[i] != ignore && r[i].value.id == x
      {
        if x in Recipients(p, ignore) {
          var i :| 0 <= i < |p| && IsLive(p[i]) && p[i] != ignore && p[i].value.id == x;
          assert r[i] == p[i];
        }
        if exists i :: 0 <= i < |r| && IsLive(r[i]) && r[i] != ignore && r[i].value.id == x {
          var i :| 0 <= i < |r| && IsLive(r[i]) && r[i] != ignore && r[i].value.id == x;
          if i < |p| {
            assert p[i] == r[i];
          }
        }
      }
    }
  }

  /** With identifiers increasing along the roster, the recipients are
      strictly increasing too. */
  lemma {:induction false} RecipientsIncreasing(r: seq<Option<ConnRec>>, ignore: Option<ConnRec>)
    requires IdsIncreasing(r)
    ensures forall a, b :: 0 <= a < b < |Recipients(r, ignore)| ==>
                             Recipients(r, ignore)[a] < Recipients(r, ignore)[b]
  {
    if r != [] {
      var p, l := r[..|r| - 1], r[|r| - 1];
      IdsPrefix(r, |r| - 1, 0, 0);
      RecipientsIncreasing(p, ignore);
      RecipientsMembers(p, ignore);
      var q := Recipients(p, ignore);
      forall a | 0 <= a < |q| ensures q[a] < l.value.id {
        assert q[a] in q;
        var i :| 0 <= i < |p| && IsLive(p[i]) && p[i] != ignore && p[i].value.id == q[a];
        assert IdAt(r, i) < IdAt(r, |r| - 1);
      }
    }
  }

  /** A broadcast calls Send on exactly the live, non-ignored entries, in
      roster order. */
  lemma {:induction false} BroadcastSendsToRecipients(r: seq<Option<ConnRec>>, msg: Message,
                                                     ignore: Option<ConnRec>)
    ensures SentIds(BroadcastEffects(r, msg, ignore)) == Recipients(r, ignore)
  {
    if r != [] {
      var p, l := r[..|r| - 1], r[|r| - 1];
      BroadcastSendsToRecipients(p, msg, ignore);
      SentIdsAppend(BroadcastEffects(p, msg, ignore), EntryEffects(l, msg, ignore));
    }
  }

  /** A broadcast calls OnClientDisconnect once for each entry that is
      null or not connected, the ignored one included, in roster order. */
  lemma {:induction false} BroadcastReportsDead(r: seq<Option<ConnRec>>, msg: Message,
                                               ignore: Option<ConnRec>)
    ensures DisconnectedClients(BroadcastEffects(r, msg, ignore)) == Sift(r, DeadOnly)
  {
    if r != [] {
      var p, l := r[..|r| - 1], r[|r| - 1];
      BroadcastReportsDead(p, msg, ignore);
      DisconnectedClientsAppend(BroadcastEffects(p, msg, ignore), EntryEffects(l, msg, ignore));
    }
  }

  /** In a strictly increasing sequence a member occurs exactly once. */
  lemma {:induction false} IncreasingOccursOnce(s: seq<u32>, x: u32)
    requires forall i, j :: 0 <= i < j < |s| ==> s[i] < s[j]
    ensures multiset(s)[x] == if x in s then 1 else 0
  {
    if s != [] {
      var p, l := s[..|s| - 1], s[|s| - 1];
      IncreasingOccursOnce(p, x);
      assert s == p + [l];
      assert l !in p by {
        forall k | 0 <= k < |p| ensures p[k] != l {
          assert p[k] == s[k];
        }
      }
    }
  }

  /** With distinct identifiers (increasing along the roster), a broadcast
      sends exactly once to every live entry other than the ignored one,
      and never to the ignored one. */
  lemma ExactlyOnce(r: seq<Option<ConnRec>>, msg: Message, ignore: Option<ConnRec>, i: nat)
    requires IdsIncreasing(r) && i < |r|
    ensures IsLive(r[i]) && r[i] != ignore ==>
              multiset(SentIds(BroadcastEffects(r, msg, ignore)))[r[i].value.id] == 1
    ensures r[i] == ignore ==>
              multiset(SentIds(BroadcastEffects(r, msg, ignore)))[r[i].value.id] == 0
  {
    BroadcastSendsToRecipients(r, msg, ignore);
    RecipientsMembers(r, ignore);
    RecipientsIncreasing(r, ignore);
    var ids := Recipients(r, ignore);
    var x := r[i].value.id;
    IncreasingOccursOnce(ids, x);
    if r[i] == ignore {
      forall j | 0 <= j < |r| && IsLive(r[j]) && r[j] != ignore
        ensures r[j].value.id != x
      {
        IncreasingIdsDistinct(r, i, j);
      }
    }
  }

  /** The roster after the loop of MessageAllClients has visited its first
      i entries: those of them that are not live are null. */
  function NulledUpTo(r: seq<Option<ConnRec>>, i: nat): (n: seq<Option<ConnRec>>)
    ensures |n| == |r|
  {
    seq(|r|, j requires 0 <= j < |r| => if j < i && !IsLive(r[j]) then None else r[j])
  }

  /** The sweep at the end of MessageAllClients: erasing the null entries
      of the fully nulled roster leaves exactly the live entries, in order. */
  lemma {:induction false} SweepKeepsLive(r: seq<Option<ConnRec>>)
    ensures Sift(NulledUpTo(r, |r|), Except(None)) == Sift(r, LiveOnly)
  {
    if r != [] {
      var p, l := r[..|r| - 1], r[|r| - 1];
      SweepKeepsLive(p);
      var x := if IsLive(l) then l else None;
      assert NulledUpTo(r, |r|) == NulledUpTo(p, |p|) + [x];
      SiftSnoc(NulledUpTo(p, |p|), x, Except(None));
    }
  }

  /** The state of MessageAllClients after its loop has visited the first
      i entries of the original roster r0: those of them that are not live
      are null, the effects of the visited entries are logged, and if no
      entry was nulled yet the roster is untouched. */
  ghost predicate SweepState(r0: seq<Option<ConnRec>>, e0: seq<Effect>, msg: Message, ignore: Option<ConnRec>,
                             i: nat, roster: seq<Option<ConnRec>>, effects: seq<Effect>, invalid: bool)
  {
    && i <= |r0|
    && roster == NulledUpTo(r0, i)
    && effects == e0 + BroadcastEffects(r0[..i], msg, ignore)
    && (!invalid ==> roster == r0)
  }

  /** The entry the loop of MessageAllClients visits next is still the
      original one. */
  lemma SweepAt(r0: seq<Option<ConnRec>>, e0: seq<Effect>, msg: Message, ignore: Option<ConnRec>,
                i: nat, roster: seq<Option<ConnRec>>, effects: seq<Effect>, invalid: bool)
    requires SweepState(r0, e0, msg, ignore, i, roster, effects, invalid) && i < |r0|
    ensures i < |roster| && roster[i] == r0[i]
  {
  }

  /** One iteration of the loop of MessageAllClients: the entry's effects
      are logged, and it is nulled exactly when it is not live. */
  lemma SweepStep(r0: seq<Option<ConnRec>>, e0: seq<Effect>, msg: Message, ignore: Option<ConnRec>,
                  i: nat, roster: seq<Option<ConnRec>>, effects: seq<Effect>, invalid: bool,
                  roster': seq<Option<ConnRec>>, effects': seq<Effect>, invalid': bool)
    requires SweepState(r0, e0, msg, ignore, i, roster, effects, invalid) && i < |r0|
    requires roster' == if IsLive(r0[i]) then roster else roster[i := None]
    requires effects' == effects + EntryEffects(r0[i], msg, ignore)
    requires invalid' == (invalid || !IsLive(r0[i]))
    ensures SweepState(r0, e0, msg, ignore, i + 1, roster', effects', invalid')
  {
    assert r0[..i + 1][..i] == r0[..i];
    assert roster' == NulledUpTo(r0, i + 1);
  }

  /** When the loop of MessageAllClients is over, erasing the null entries
      (which happens only if one was nulled) leaves the live entries of the
      original roster, and every entry's effects are logged. */
  lemma SweepDone(r0: seq<Option<ConnRec>>, e0: seq<Effect>, msg: Message, ignore: Option<ConnRec>,
                  roster: seq<Option<ConnRec>>, effects: seq<Effect>, invalid: bool)
    requires SweepState(r0, e0, msg, ignore, |r0|, roster, effects, invalid) && AllPresent(r0)
    ensures (if invalid then Sift(roster, Except(None)) else roster) == Sift(r0, LiveOnly)
    ensures effects == e0 + BroadcastEffects(r0, msg, ignore)
  {
    assert r0[..|r0|] == r0;
    SweepKeepsLive(r0);
    if !invalid {
      SiftAllPass(r0, Except(None));
    }
  }

  /** OnMessage(remote, msg) for each owned message, in order. */
  function Dispatches(ms: seq<OwnedMessage>): (es: seq<Effect>)
    ensures |es| == |ms|
    ensures forall k :: 0 <= k < |ms| ==> es[k] == Dispatched(ms[k].remote, ms[k].msg)
  {
    if ms == [] then [] else Dispatches(ms[..|ms| - 1]) + [Dispatched(ms[|ms| - 1].remote, ms[|ms| - 1].msg)]
  }

  lemma {:induction false} DispatchesAppend(a: seq<OwnedMessage>, b: seq<OwnedMessage>)
    ensures Dispatches(a + b) == Dispatches(a) + Dispatches(b)
    decreases |b|
  {
    if b != [] {
      var b' := b[..|b| - 1];
      DispatchesAppend(a, b');
      assert (a + b)[..|a + b| - 1] == a + b';
    } else {
      assert a + b == a;
    }
  }

  function Min(a: nat, b: nat): nat
  {
    if a <= b then a else b
  }

  /** Update(n) as a function of the inbound queue: the queue left and the
      OnMessage calls made. */
  function Drain(q: seq<OwnedMessage>, n: nat): (d: (seq<OwnedMessage>, seq<Effect>))
    ensures q == q[..Min(n, |q|)] + d.0
    ensures |d.1| == Min(n, |q|) && (|q| <= n ==> d.0 == [])
    ensures forall k :: 0 <= k < |d.1| ==> d.1[k] == Dispatched(q[k].remote, q[k].msg)
  {
    (q[Min(n, |q|)..], Dispatches(q[..Min(n, |q|)]))
  }

  /** Two updates in a row, of at most a and at most b messages, are one
      update of at most a + b messages: dispatch is FIFO across calls. */
  lemma DrainTwice(q: seq<OwnedMessage>, a: nat, b: nat)
    ensures Drain(Drain(q, a).0, b).0 == Drain(q, a + b).0
    ensures Drain(q, a).1 + Drain(Drain(q, a).0, b).1 == Drain(q, a + b).1
  {
    var k1 := Min(a, |q|);
    var k2 := Min(b, |q| - k1);
    assert Min(a + b, |q|) == k1 + k2;
    assert q[..k1 + k2] == q[..k1] + q[k1..][..k2];
    DispatchesAppend(q[..k1], q[k1..][..k2]);
  }

  /** The loop of MessageAllClients over m_deqConnections: one pass sends
      to each live entry other than `ignore`, reports and nulls every other
      entry; then, if any entry was nulled, the null entries are erased.
      The result is the roster left and the sends and reports, in order. */
  method SweepRoster(r0: seq<Option<ConnRec>>, msg: Message, ignore: Option<ConnRec>)
    returns (roster: seq<Option<ConnRec>>, log: seq<Effect>)
    requires AllPresent(r0)
    ensures roster == Sift(r0, LiveOnly)
    ensures log == BroadcastEffects(r0, msg, ignore)
  {
    roster := r0;
    log := [];
    var invalidExists := false;
    var i := 0;
    while i < |roster|
      invariant |roster| == |r0|
      invariant SweepState(r0, [], msg, ignore, i, roster, log, invalidExists)
    {
      SweepAt(r0, [], msg, ignore, i, roster, log, invalidExists);
      ghost var roster0, log0, invalid0 := roster, log, invalidExists;
      if IsLive(roster[i]) {
        if roster[i] != ignore {
          log := log + [Sent(roster[i].value.id, msg)];
        }
      } else {
        log := log + [Disconnected(roster[i])];
        roster := roster[i := None];
        invalidExists := true;
      }
      assert log == log0 + EntryEffects(r0[i], msg, ignore);
      SweepStep(r0, [], msg, ignore, i, roster0, log0, invalid0, roster, log, invalidExists);
      i := i + 1;
    }
    SweepDone(r0, [], msg, ignore, roster, log, invalidExists);
    if invalidExists {
      roster := Sift(roster, Except(None));
    }
  }

  /** server_interface<T>, with the roster, the ID counter, the inbound
      queue and the log of hook calls. */
  class ServerInterface {
    /** m_deqConnections */
    var roster: seq<Option<ConnRec>>
    /** nIDCounter */
    var nIDCounter: u32
    /** m_qMessagesIn, shared with every connection of the roster */
    const qIn: TsQueue<OwnedMessage>
    /** An async_accept is outstanding. */
    var acceptPending: bool
    /** Hook calls and sends, in order. */
    var effects: seq<Effect>
    /** How many identifiers have been handed out. */
    ghost var issued: nat

    ghost predicate Valid()
      reads this
    {
      && nIDCounter == ToU32(FirstId + issued)
      && RosterInv(roster, issued)
    }

    /** server_interface(port): an empty roster and the counter at 10000. */
    constructor (qIn: TsQueue<OwnedMessage>)
      ensures Valid()
      ensures roster == [] && nIDCounter as int == FirstId && this.qIn == qIn
      ensures !acceptPending && effects == [] && issued == 0
    {
      roster := [];
      nIDCounter := FirstId as u32;
      this.qIn := qIn;
      acceptPending := false;
      effects := [];
      issued := 0;
    }

    /** WaitForClientConnection(): issues the asynchronous accept. */
    method WaitForClientConnection()
      modifies this`acceptPending
      ensures acceptPending
    {
      acceptPending := true;
    }

    /** Completion of the accept.  On success the veto hook is asked; if it
        approves, the new connection goes to the back of the roster with the
        current counter as its identifier, and the counter goes up by one
        (modulo 2^32).  A veto or an accept error leaves the roster and the
        counter as they were.  The accept is issued again in every case. */
    method AcceptHandler(ok: bool, approve: bool)
      requires Valid() && acceptPending
      modifies this`roster, this`nIDCounter, this`issued, this`effects, this`acceptPending
      ensures Valid()
      ensures acceptPending
      ensures effects == old(effects) + (if ok then [ConnectAsked] else [])
      ensures ok && approve ==>
                && roster == old(roster) + [Some(ConnRec(old(nIDCounter), true))]
                && nIDCounter == IncU32(old(nIDCounter))
                && issued == old(issued) + 1
      ensures !(ok && approve) ==>
                roster == old(roster) && nIDCounter == old(nIDCounter) && issued == old(issued)
    {
      if ok {
        effects := effects + [ConnectAsked];
        if approve {
          AcceptKeepsRosterInv(roster, issued);
          roster := roster + [Some(ConnRec(nIDCounter, true))];
          nIDCounter := IncU32(nIDCounter);
          issued := issued + 1;
        }
      }
      WaitForClientConnection();
    }

    /** The socket of the i-th connection closes (a read or write failed or
        the client went away); the server sees it at its next send. */
    method ConnectionDropped(i: nat)
      requires Valid() && i < |roster|
      modifies this`roster
      ensures Valid()
      ensures roster == old(roster)[i := Some(old(roster)[i].value.(connected := false))]
    {
      DropKeepsRosterInv(roster, issued, i);
      roster := roster[i := Some(roster[i].value.(connected := false))];
    }

    /** MessageClient(client, msg) as written: a live client gets exactly
        one Send and the roster is unchanged.  Otherwise OnClientDisconnect
        is called once, and then, since the local handle has already been
        reset, only null entries are erased. */
    method MessageClient(client: Option<ConnRec>, msg: Message)
      requires Valid() && Designates(roster, client)
      modifies this`roster, this`effects
      ensures Valid()
      ensures IsLive(client) ==>
                roster == old(roster) && effects == old(effects) + [Sent(client.value.id, msg)]
      ensures !IsLive(client) ==>
                && roster == Sift(old(roster), Except(None))
                && effects == old(effects) + [Disconnected(client)]
    {
      if IsLive(client) {
        effects := effects + [Sent(client.value.id, msg)];
      } else {
        effects := effects + [Disconnected(client)];
        var local: Option<ConnRec> := None;
        SiftKeepsRosterInv(roster, issued, Except(local));
        roster := Sift(roster, Except(local));
      }
    }

    /** MessageClient as evidently intended: a client that is not live is
        erased from the roster, and every other entry stays, in order. */
    method MessageClientCorrected(client: Option<ConnRec>, msg: Message)
      requires Valid() && Designates(roster, client)
      modifies this`roster, this`effects
      ensures Valid()
      ensures IsLive(client) ==>
                roster == old(roster) && effects == old(effects) + [Sent(client.value.id, msg)]
      ensures !IsLive(client) ==>
                && roster == Sift(old(roster), Except(client))
                && client !in roster
                && (forall e :: e in old(roster) && e != client ==> e in roster)
                && effects == old(effects) + [Disconnected(client)]
    {
      if IsLive(client) {
        effects := effects + [Sent(client.value.id, msg)];
      } else {
        effects := effects + [Disconnected(client)];
        SiftKeepsRosterInv(roster, issued, Except(client));
        SiftMembers(old(roster), Except(client));
        roster := Sift(roster, Except(client));
      }
    }

    /** MessageAllClients(msg, ignore): sends to each live entry other than
        `ignore`, reports every other entry, and keeps only the live ones. */
    method MessageAllClients(msg: Message, ignore: Option<ConnRec>)
      requires Valid() && Designates(roster, ignore)
      modifies this`roster, this`effects
      ensures Valid()
      ensures roster == Sift(old(roster), LiveOnly)
      ensures effects == old(effects) + BroadcastEffects(old(roster), msg, ignore)
    {
      SiftKeepsRosterInv(roster, issued, LiveOnly);
      var kept, log := SweepRoster(roster, msg, ignore);
      roster := kept;
      effects := effects + log;
    }

    /** Update(nMaxMessages): pops and dispatches min(nMaxMessages, count)
        messages, oldest first.  The default argument -1 is ToSizeT(-1),
        that is SIZE_MAX, so every queued message is dispatched. */
    method Update(nMaxMessages: nat)
      requires nMaxMessages <= SizeMax
      modifies this`effects, qIn
      ensures var k := Min(nMaxMessages, |old(qIn.items)|);
              && qIn.items == old(qIn.items)[k..]
              && effects == old(effects) + Dispatches(old(qIn.items)[..k])
      ensures (qIn.items, effects) == (Drain(old(qIn.items), nMaxMessages).0,
                                       old(effects) + Drain(old(qIn.items), nMaxMessages).1)
    {
      ghost var q0 := qIn.items;
      ghost var e0 := effects;
      var nMessageCount := 0;
      var empty := qIn.Empty();
      while nMessageCount < nMaxMessages && !empty
        invariant nMessageCount <= nMaxMessages && nMessageCount <= |q0|
        invariant qIn.items == q0[nMessageCount..]
        invariant empty <==> qIn.items == []
        invariant effects == e0 + Dispatches(q0[..nMessageCount])
        decreases |qIn.items|
      {
        var m := qIn.PopFront();
        assert q0[..nMessageCount + 1] == q0[..nMessageCount] + [m];
        effects := effects + [Dispatched(m.remote, m.msg)];
        nMessageCount := nMessageCount + 1;
        empty := qIn.Empty();
      }
    }
  }
}
