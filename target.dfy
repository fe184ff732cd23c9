/**
  A monitored device (pkg/collector/target.go): its subscription request,
  the retry backoff of `subscribe`, the read loop of `process` and
  `Serve`, the routing of one batch of key/value pairs into the value
  tree (`processOpenConfigData`), and the conversion of the tree's records
  into samples (`collect`).

  The transport is not modelled: each subscription attempt and each
  receive is an entry of an oracle sequence handed in by the caller, and
  the stop channel is an oracle entry too.
 */
module Targets {
  import opened Seqs
  import opened GoStrings
  import opened Telemetry
  import opened Metric
  import opened Path
  import opened Tree

  // ---------------------------------------------------------------------
  // Backoff of `subscribe`, in nanoseconds

  const Second: nat := 1_000_000_000
  const BackoffInit: nat := Second
  const BackoffMax: nat := 16 * Second

  /** The backoff after a failed attempt: 1s after the first failure,
      never shorter than before, and unchanged once at the maximum. */
  function NextBackoff(b: nat): (r: nat)
    ensures r > 0 && r >= b
    ensures b == 0 ==> r == BackoffInit
    ensures b >= BackoffMax ==> r == b
  {
    if b == 0 then BackoffInit
    else if b < BackoffMax then b * 2
    else b
  }

  /** The sleep before attempt `k` of one `subscribe` call (attempts
      counted from 0). */
  function BackoffAt(k: nat): (r: nat)
    ensures r == 0 <==> k == 0
    ensures k > 0 ==> r >= BackoffInit
  {
    if k == 0 then 0 else NextBackoff(BackoffAt(k - 1))
  }

  /** The sleep never shortens from one attempt to a later one. */
  lemma {:induction false} BackoffMonotone(j: nat, k: nat)
    requires j <= k
    ensures BackoffAt(j) <= BackoffAt(k)
    decreases k - j
  {
    if j < k {
      BackoffMonotone(j, k - 1);
    }
  }

  function Pow2(e: nat): nat
  {
    if e == 0 then 1 else 2 * Pow2(e - 1)
  }

  /** Closed form: no sleep first, then 1s, 2s, 4s, 8s, and 16s from the
      fifth retry on. */
  lemma {:induction false} BackoffClosedForm(k: nat)
    ensures BackoffAt(k) == if k == 0 then 0 else Second * Pow2(if k - 1 < 4 then k - 1 else 4)
  {
    if k > 0 {
      BackoffClosedForm(k - 1);
      assert Pow2(1) == 2 && Pow2(2) == 4 && Pow2(3) == 8 && Pow2(4) == 16;
    }
  }

  /** The backoff is always one of 0, 1, 2, 4, 8, 16 seconds and never
      exceeds the maximum. */
  lemma BackoffBounded(k: nat)
    ensures BackoffAt(k) in {0, Second, 2 * Second, 4 * Second, 8 * Second, 16 * Second}
    ensures BackoffAt(k) <= BackoffMax
  {
    BackoffClosedForm(k);
    if k > 0 {
      var e := if k - 1 < 4 then k - 1 else 4;
      assert e == 0 || e == 1 || e == 2 || e == 3 || e == 4;
    }
  }

  /** The sleeps of the first `n` attempts of one `subscribe` call. */
  function Schedule(n: nat): (r: seq<nat>)
    ensures |r| == n
  {
    if n == 0 then [] else Schedule(n - 1) + [BackoffAt(n - 1)]
  }

  /** Sleep `j` of the schedule is the backoff before attempt `j`. */
  lemma {:induction false} ScheduleAt(n: nat)
    ensures forall j :: 0 <= j < n ==> Schedule(n)[j] == BackoffAt(j)
  {
    if n > 0 {
      ScheduleAt(n - 1);
      assert forall j :: 0 <= j < n - 1 ==> Schedule(n)[j] == Schedule(n - 1)[j];
    }
  }

  // ---------------------------------------------------------------------
  // Oracles for the transport

  /** One round of the `subscribe` loop: a stop was signalled before the
      attempt, or the attempt failed, or it opened a stream. */
  datatype Round = StopRequested | AttemptFailed | Connected

  /** One round of the `process` loop: a stop was signalled before the
      receive, or the receive failed, or it delivered a batch. */
  datatype RecvEvent = Stop | RecvError | Batch(data: OpenConfigData)

  /** A connection period: the rounds of one `subscribe` call and the
      events of the stream it opens. */
  datatype Session = Session(rounds: seq<Round>, events: seq<RecvEvent>)

  /** Some round ends the `subscribe` loop. */
  predicate SubscribeEnds(rounds: seq<Round>)
  {
    exists k :: 0 <= k < |rounds| && rounds[k] != AttemptFailed
  }

  /** The round that ends the `subscribe` loop: the first that is not a
      failure. */
  function SubscribeEnd(rounds: seq<Round>, from: nat): (k: nat)
    requires from <= |rounds| && exists k :: from <= k < |rounds| && rounds[k] != AttemptFailed
    ensures from <= k < |rounds| && rounds[k] != AttemptFailed
    ensures forall j :: from <= j < k ==> rounds[j] == AttemptFailed
    decreases |rounds| - from
  {
    if rounds[from] != AttemptFailed then from else SubscribeEnd(rounds, from + 1)
  }

  /** The `process` loop stops at event `k`: on a stop, on a receive error,
      or once `maxReads` batches (when positive) have been processed. */
  predicate EndsAt(events: seq<RecvEvent>, maxReads: int, k: nat)
    requires k < |events|
  {
    !events[k].Batch? || (maxReads > 0 && k + 1 >= maxReads)
  }

  predicate ProcessEnds(events: seq<RecvEvent>, maxReads: int)
  {
    exists k :: 0 <= k < |events| && EndsAt(events, maxReads, k)
  }

  /** The event that ends the `process` loop. */
  function ProcessEnd(events: seq<RecvEvent>, maxReads: int, from: nat): (k: nat)
    requires from <= |events| && exists k :: from <= k < |events| && EndsAt(events, maxReads, k)
    ensures from <= k < |events| && EndsAt(events, maxReads, k)
    ensures forall j :: from <= j < k ==> !EndsAt(events, maxReads, j)
    decreases |events| - from
  {
    if EndsAt(events, maxReads, from) then from else ProcessEnd(events, maxReads, from + 1)
  }

  /** The loop ends at the first event that ends it; what it consumes
      follows. */
  lemma ProcessEndAt(events: seq<RecvEvent>, maxReads: int, i: nat)
    requires ProcessEnds(events, maxReads) && i <= ProcessEnd(events, maxReads, 0)
    requires i < |events| && EndsAt(events, maxReads, i)
    ensures ProcessEnd(events, maxReads, 0) == i
    ensures Consumed(events, maxReads) == if events[i].Batch? then i + 1 else i
  {
  }

  /** With a positive read limit and enough events, the loop ends by the
      `maxReads`-th batch at the latest, so it consumes at most `maxReads`
      events. */
  lemma ProcessReadLimit(events: seq<RecvEvent>, maxReads: int)
    requires 0 < maxReads <= |events|
    ensures ProcessEnds(events, maxReads)
    ensures ProcessEnd(events, maxReads, 0) < maxReads
  {
    assert EndsAt(events, maxReads, maxReads - 1);
  }

  /** Without a read limit only a stop or a receive error ends the loop. */
  lemma ProcessUnlimited(events: seq<RecvEvent>, maxReads: int)
    requires maxReads <= 0 && ProcessEnds(events, maxReads)
    ensures !events[ProcessEnd(events, maxReads, 0)].Batch?
    ensures forall j :: 0 <= j < ProcessEnd(events, maxReads, 0) ==> events[j].Batch?
  {
    var k := ProcessEnd(events, maxReads, 0);
    forall j | 0 <= j < k
      ensures events[j].Batch?
    {
      assert !EndsAt(events, maxReads, j);
    }
  }

  // ---------------------------------------------------------------------
  // Routing of one batch

  const PrefixKey := "__prefix__"
  const DescriptionSuffix := "state/description"

  /** The running prefix after one pair: a `__prefix__` pair sets it to
      its string value, resets it on nil, and leaves it on any other
      kind; other pairs leave it. */
  function PrefixAfter(prefix: string, kv: KeyValue): (r: string)
    ensures kv.key != PrefixKey ==> r == prefix
    ensures r == prefix || (kv.key == PrefixKey && (kv.value == None ==> r == "")
                            && (kv.value != None ==> kv.value == Some(StrValue(r))))
    ensures kv.key == PrefixKey && kv.value.Some? && kv.value.value.StrValue? ==> r == kv.value.value.str
  {
    if kv.key != PrefixKey then prefix
    else match kv.value
      case None => ""
      case Some(StrValue(s)) => s
      case Some(_) => prefix
  }

  /** The running prefix after the pairs `kvs`, starting from `p0`. */
  function RunningPrefix(p0: string, kvs: seq<KeyValue>): string
    decreases |kvs|
  {
    if kvs == [] then p0 else PrefixAfter(RunningPrefix(p0, kvs[..|kvs| - 1]), kvs[|kvs| - 1])
  }

  /** Pairs that leave the tree alone: `__prefix__`, every other key
      starting with `__`, and description keys with a nil value. */
  predicate Skipped(kv: KeyValue)
  {
    kv.key == PrefixKey || HasPrefix(kv.key, "__")
    || (HasSuffix(kv.key, DescriptionSuffix) && kv.value.None?)
  }

  /** The `__prefix__` test comes first in the source, but its key starts
      with `__` too: a pair leaves the tree alone exactly when its key
      starts with `__`, or it is a description pair with a nil value. */
  lemma SkippedIff(kv: KeyValue)
    ensures Skipped(kv) <==> HasPrefix(kv.key, "__") || (HasSuffix(kv.key, DescriptionSuffix) && kv.value.None?)
  {
    assert HasPrefix(PrefixKey, "__") by {
      assert PrefixKey[..2] == "__";
    }
  }

  /** The description a pair carries: its string value, when its key ends
      in `state/description`. */
  function DescriptionOf(kv: KeyValue): (r: Option<string>)
    ensures r.Some? <==> HasSuffix(kv.key, DescriptionSuffix) && kv.value.Some? && kv.value.value.StrValue?
    ensures r.Some? ==> kv.value == Some(StrValue(r.value))
  {
    if HasSuffix(kv.key, DescriptionSuffix) && kv.value.Some? && kv.value.value.StrValue?
    then Some(kv.value.value.str)
    else None
  }

  /** The path a description is stored at: every `state/description`
      removed. */
  function DescriptionPath(path: string): (r: string)
    ensures |r| <= |path|
    ensures !Contains(path, DescriptionSuffix) ==> r == path
  {
    RemoveAll(path, DescriptionSuffix)
  }

  /** No proper prefix of `state/description` is also a suffix of it: its
      last letter occurs nowhere else. */
  lemma SuffixNoBorder(j: nat)
    requires 0 < j < |DescriptionSuffix|
    ensures DescriptionSuffix[j..] != DescriptionSuffix[..|DescriptionSuffix| - j]
  {
    var d := DescriptionSuffix;
    assert d[j..][|d| - j - 1] == 'n';
    assert d[..|d| - j][|d| - j - 1] == d[|d| - j - 1];
  }

  /** A description key `x/state/description` sends its description to
      `x/`, when `x` holds no other `state/description`. */
  lemma {:induction false} DescriptionPathStrip(a: string)
    requires !Contains(a, DescriptionSuffix)
    ensures DescriptionPath(a + DescriptionSuffix) == a
    decreases |a|
  {
    var d := DescriptionSuffix;
    var s := a + d;
    if a == [] {
      assert s == d && s[|d|..] == [];
    } else {
      assert s[..|d|] != d by {
        if |a| >= |d| {
          assert s[..|d|] == a[..|d|];
        } else {
          SuffixNoBorder(|a|);
          assert s[..|d|][|a|..] == d[..|d| - |a|];
        }
      }
      DescriptionPathStrip(a[1..]);
      assert s[1..] == a[1..] + d;
      HeadTail(a);
    }
  }

  /** The paths a pair writes to can be decoded (none is exactly `/`). */
  predicate EntryRoutable(prefix: string, kv: KeyValue)
  {
    Skipped(kv)
    || (prefix + kv.key != "/"
        && (DescriptionOf(kv).Some? ==> DescriptionPath(prefix + kv.key) != "/"))
  }

  predicate Routable(p0: string, kvs: seq<KeyValue>)
  {
    forall i :: 0 <= i < |kvs| ==> EntryRoutable(RunningPrefix(p0, kvs[..i]), kvs[i])
  }

  /** The tree after one pair under `prefix`: a description, if the pair
      carries one, then the value itself. */
  function ApplyEntry(root: Option<Node>, prefix: string, kv: KeyValue): (r: Option<Node>)
    requires EntryRoutable(prefix, kv)
    ensures Skipped(kv) ==> r == root
    ensures !Skipped(kv) ==> r.Some?
  {
    if Skipped(kv) then root
    else
      var path := prefix + kv.key;
      var described := match DescriptionOf(kv)
        case None => root
        case Some(d) => Some(NodeSetDescription(RootOf(root), Decode(DescriptionPath(path)), d));
      Some(NodeInsert(RootOf(described), Decode(path), kv.value))
  }

  /** The tree after the pairs `kvs`, the prefix starting at `p0`. */
  function ApplyBatch(root: Option<Node>, p0: string, kvs: seq<KeyValue>): Option<Node>
    requires Routable(p0, kvs)
    decreases |kvs|
  {
    if kvs == [] then root
    else
      var init := kvs[..|kvs| - 1];
      RoutableInit(p0, kvs);
      ApplyEntry(ApplyBatch(root, p0, init), RunningPrefix(p0, init), kvs[|kvs| - 1])
  }

  lemma ApplyBatchUnfold(root: Option<Node>, p0: string, kvs: seq<KeyValue>)
    requires Routable(p0, kvs) && kvs != []
    ensures Routable(p0, kvs[..|kvs| - 1])
    ensures EntryRoutable(RunningPrefix(p0, kvs[..|kvs| - 1]), kvs[|kvs| - 1])
    ensures ApplyBatch(root, p0, kvs)
      == ApplyEntry(ApplyBatch(root, p0, kvs[..|kvs| - 1]), RunningPrefix(p0, kvs[..|kvs| - 1]), kvs[|kvs| - 1])
  {
    RoutableInit(p0, kvs);
  }

  lemma RoutableInit(p0: string, kvs: seq<KeyValue>)
    requires Routable(p0, kvs) && kvs != []
    ensures Routable(p0, kvs[..|kvs| - 1])
    ensures EntryRoutable(RunningPrefix(p0, kvs[..|kvs| - 1]), kvs[|kvs| - 1])
  {
    var init := kvs[..|kvs| - 1];
    forall i | 0 <= i < |init|
      ensures EntryRoutable(RunningPrefix(p0, init[..i]), init[i])
    {
      assert init[..i] == kvs[..i];
    }
  }

  /** The loop step of `processOpenConfigData`. */
  lemma BatchSnoc(p0: string, kvs: seq<KeyValue>, i: nat, root: Option<Node>)
    requires Routable(p0, kvs) && i < |kvs|
    ensures Routable(p0, kvs[..i]) && Routable(p0, kvs[..i + 1])
    ensures EntryRoutable(RunningPrefix(p0, kvs[..i]), kvs[i])
    ensures RunningPrefix(p0, kvs[..i + 1]) == PrefixAfter(RunningPrefix(p0, kvs[..i]), kvs[i])
    ensures ApplyBatch(root, p0, kvs[..i + 1]) == ApplyEntry(ApplyBatch(root, p0, kvs[..i]), RunningPrefix(p0, kvs[..i]), kvs[i])
  {
    var pre := kvs[..i + 1];
    assert pre[..i] == kvs[..i];
    forall j | 0 <= j < |pre|
      ensures EntryRoutable(RunningPrefix(p0, pre[..j]), pre[j])
    {
      assert pre[..j] == kvs[..j];
    }
    RoutableInit(p0, pre);
  }

  /** A batch of reserved pairs (`__prefix__` and other keys starting with
      `__`) leaves the tree as it was, whatever the prefix does. */
  lemma {:induction false} ReservedBatchIgnored(root: Option<Node>, p0: string, kvs: seq<KeyValue>)
    requires forall i :: 0 <= i < |kvs| ==> HasPrefix(kvs[i].key, "__")
    ensures Routable(p0, kvs)
    ensures ApplyBatch(root, p0, kvs) == root
    decreases |kvs|
  {
    if kvs != [] {
      var init := kvs[..|kvs| - 1];
      ReservedBatchIgnored(root, p0, init);
      assert forall i :: 0 <= i < |kvs| ==> Skipped(kvs[i]);
    }
  }

  /** The prefix is carried from pair to pair: running over `a + b` is
      running over `a`, then over `b` from where `a` left it. */
  lemma {:induction false} RunningPrefixAppend(p0: string, a: seq<KeyValue>, b: seq<KeyValue>)
    ensures RunningPrefix(p0, a + b) == RunningPrefix(RunningPrefix(p0, a), b)
    decreases |b|
  {
    if b == [] {
      assert a + b == a;
    } else {
      var b' := b[..|b| - 1];
      RunningPrefixAppend(p0, a, b');
      assert (a + b)[..|a + b| - 1] == a + b';
    }
  }

  /** A batch can be routed exactly when its two halves can, the second
      under the prefix the first leaves. */
  lemma RoutableAppend(p0: string, a: seq<KeyValue>, b: seq<KeyValue>)
    requires Routable(p0, a + b)
    ensures Routable(p0, a) && Routable(RunningPrefix(p0, a), b)
  {
    var ab := a + b;
    forall i | 0 <= i < |a|
      ensures EntryRoutable(RunningPrefix(p0, a[..i]), a[i])
    {
      assert ab[..i] == a[..i];
    }
    forall i | 0 <= i < |b|
      ensures EntryRoutable(RunningPrefix(RunningPrefix(p0, a), b[..i]), b[i])
    {
      assert ab[..|a| + i] == a + b[..i];
      RunningPrefixAppend(p0, a, b[..i]);
      assert ab[|a| + i] == b[i];
    }
  }

  /** A batch is routed pair by pair: `a + b` is `a`, then `b` under the
      prefix `a` leaves. */
  lemma {:induction false} ApplyBatchAppend(root: Option<Node>, p0: string, a: seq<KeyValue>, b: seq<KeyValue>)
    requires Routable(p0, a + b)
    ensures Routable(p0, a) && Routable(RunningPrefix(p0, a), b)
    ensures ApplyBatch(root, p0, a + b) == ApplyBatch(ApplyBatch(root, p0, a), RunningPrefix(p0, a), b)
    decreases |b|
  {
    RoutableAppend(p0, a, b);
    if b == [] {
      assert a + b == a;
    } else {
      var ab := a + b;
      var b' := b[..|b| - 1];
      assert ab[..|ab| - 1] == a + b';
      var last := b[|b| - 1];
      assert ab[|ab| - 1] == last;
      RoutableInit(p0, ab);
      ApplyBatchAppend(root, p0, a, b');
      RunningPrefixAppend(p0, a, b');
      RoutableInit(RunningPrefix(p0, a), b);
      ApplyBatchUnfold(root, p0, ab);
      ApplyBatchUnfold(ApplyBatch(root, p0, a), RunningPrefix(p0, a), b);
    }
  }

  /** A stored pair in the terms of the loop: the description, when there
      is one, then the value. */
  lemma EntryStep(root: Option<Node>, prefix: string, kv: KeyValue)
    requires EntryRoutable(prefix, kv) && !Skipped(kv)
    ensures DescriptionOf(kv).None? ==>
      ApplyEntry(root, prefix, kv) == Some(NodeInsert(RootOf(root), Decode(prefix + kv.key), kv.value))
    ensures DescriptionOf(kv).Some? ==>
      ApplyEntry(root, prefix, kv)
        == Some(NodeInsert(NodeSetDescription(RootOf(root), Decode(DescriptionPath(prefix + kv.key)), DescriptionOf(kv).value),
                           Decode(prefix + kv.key), kv.value))
  {
  }

  /** After one stored pair, the node at its path holds the pair's value
      (nil included) and is marked as holding a value; a description pair
      also leaves its description on the node at the description path. */
  lemma EntryStored(root: Option<Node>, prefix: string, kv: KeyValue)
    requires EntryRoutable(prefix, kv) && !Skipped(kv)
    ensures var q := Decode(prefix + kv.key);
      AttrsAt(ApplyEntry(root, prefix, kv).value, q).isReal
      && AttrsAt(ApplyEntry(root, prefix, kv).value, q).value == kv.value
    ensures DescriptionOf(kv).Some? ==>
      AttrsAt(ApplyEntry(root, prefix, kv).value, Decode(DescriptionPath(prefix + kv.key))).description
        == DescriptionOf(kv).value
  {
    var path := prefix + kv.key;
    var described := match DescriptionOf(kv)
      case None => root
      case Some(d) => Some(NodeSetDescription(RootOf(root), Decode(DescriptionPath(path)), d));
    InsertAttrs(RootOf(described), Decode(path), kv.value, Decode(path));
    if DescriptionOf(kv).Some? {
      var dq := Decode(DescriptionPath(path));
      SetDescriptionAttrs(RootOf(root), dq, DescriptionOf(kv).value, dq);
      InsertAttrs(RootOf(described), Decode(path), kv.value, dq);
    }
  }

  // ---------------------------------------------------------------------
  // Routing over a stream of batches

  /** Every batch among `events` can be routed, each from an empty
      prefix. */
  predicate BatchesRoutable(events: seq<RecvEvent>)
  {
    forall k :: 0 <= k < |events| && events[k].Batch? ==> Routable("", events[k].data.kv)
  }

  /** The tree after the batches among `events`. */
  function ApplyEvents(root: Option<Node>, events: seq<RecvEvent>): Option<Node>
    requires BatchesRoutable(events)
    decreases |events|
  {
    if events == [] then root
    else
      var init := events[..|events| - 1];
      assert forall k :: 0 <= k < |init| ==> init[k] == events[k];
      var r := ApplyEvents(root, init);
      match events[|events| - 1]
      case Batch(data) => ApplyBatch(r, "", data.kv)
      case _ => r
  }

  lemma ApplyEventsSnoc(root: Option<Node>, events: seq<RecvEvent>, i: nat)
    requires BatchesRoutable(events) && i < |events| && events[i].Batch?
    ensures BatchesRoutable(events[..i]) && BatchesRoutable(events[..i + 1])
    ensures ApplyEvents(root, events[..i + 1]) == ApplyBatch(ApplyEvents(root, events[..i]), "", events[i].data.kv)
  {
    PrefixOfPrefix(events, i + 1, i);
    assert forall k :: 0 <= k < i + 1 ==> events[..i + 1][k] == events[k];
  }

  /** What one session does to the tree: nothing when `subscribe` was
      stopped; a fresh, empty tree after a receive error; otherwise the
      batches read before the end (the last one included when the read
      limit ended the loop). */
  predicate SessionOk(s: Session, maxReads: int)
  {
    SubscribeEnds(s.rounds)
    && (s.rounds[SubscribeEnd(s.rounds, 0)] == Connected ==>
          ProcessEnds(s.events, maxReads) && BatchesRoutable(s.events))
  }

  /** How many events the stream's loop consumes, the ending one excluded
      unless it is a batch. */
  function Consumed(events: seq<RecvEvent>, maxReads: int): nat
    requires ProcessEnds(events, maxReads)
  {
    var k := ProcessEnd(events, maxReads, 0);
    if events[k].Batch? then k + 1 else k
  }

  function SessionEffect(root: Option<Node>, s: Session, maxReads: int): Option<Node>
    requires SessionOk(s, maxReads)
  {
    if s.rounds[SubscribeEnd(s.rounds, 0)] == StopRequested then root
    else
      var k := ProcessEnd(s.events, maxReads, 0);
      if s.events[k].RecvError? then None
      else ApplyEvents(root, s.events[..Consumed(s.events, maxReads)])
  }

  /** `Serve` ends after session `k`: its `subscribe` was stopped, or
      reconnecting is off. */
  predicate ServeEndsAt(sessions: seq<Session>, maxReads: int, reconnect: bool, k: nat)
    requires k < |sessions| && SessionOk(sessions[k], maxReads)
  {
    sessions[k].rounds[SubscribeEnd(sessions[k].rounds, 0)] == StopRequested || !reconnect
  }

  predicate ServeEndsFrom(sessions: seq<Session>, maxReads: int, reconnect: bool, from: nat)
  {
    exists k :: from <= k < |sessions|
      && (forall j :: from <= j <= k ==> SessionOk(sessions[j], maxReads))
      && ServeEndsAt(sessions, maxReads, reconnect, k)
  }

  /** The session that ends `Serve`: the first that ends it. */
  ghost function ServeEnd(sessions: seq<Session>, maxReads: int, reconnect: bool, from: nat): (k: nat)
    requires ServeEndsFrom(sessions, maxReads, reconnect, from)
    ensures from <= k < |sessions|
    ensures forall j :: from <= j <= k ==> SessionOk(sessions[j], maxReads)
    ensures ServeEndsAt(sessions, maxReads, reconnect, k)
    ensures forall j :: from <= j < k ==> !ServeEndsAt(sessions, maxReads, reconnect, j)
    decreases |sessions| - from
  {
    var w :| from <= w < |sessions|
      && (forall j :: from <= j <= w ==> SessionOk(sessions[j], maxReads))
      && ServeEndsAt(sessions, maxReads, reconnect, w);
    if ServeEndsAt(sessions, maxReads, reconnect, from) then from
    else
      assert w != from;
      assert ServeEndsFrom(sessions, maxReads, reconnect, from + 1);
      ServeEnd(sessions, maxReads, reconnect, from + 1)
  }

  /** `Serve` ends at the first session that ends it. */
  lemma ServeEndAt(sessions: seq<Session>, maxReads: int, reconnect: bool, i: nat)
    requires ServeEndsFrom(sessions, maxReads, reconnect, 0)
    requires i <= ServeEnd(sessions, maxReads, reconnect, 0)
    requires i < |sessions| && SessionOk(sessions[i], maxReads) && ServeEndsAt(sessions, maxReads, reconnect, i)
    ensures ServeEnd(sessions, maxReads, reconnect, 0) == i
  {
  }

  /** Without reconnecting, `Serve` ends after the first session whatever
      it does. */
  lemma NoReconnectOneSession(sessions: seq<Session>, maxReads: int)
    requires |sessions| > 0 && SessionOk(sessions[0], maxReads)
    ensures ServeEndsFrom(sessions, maxReads, false, 0)
    ensures ServeEnd(sessions, maxReads, false, 0) == 0
  {
    assert ServeEndsAt(sessions, maxReads, false, 0);
  }

  /** With reconnecting on, `Serve` ends exactly at the first session
      whose subscription was stopped. */
  lemma ReconnectEndsOnStop(sessions: seq<Session>, maxReads: int)
    requires ServeEndsFrom(sessions, maxReads, true, 0)
    ensures var k := ServeEnd(sessions, maxReads, true, 0);
      sessions[k].rounds[SubscribeEnd(sessions[k].rounds, 0)] == StopRequested
      && forall j :: 0 <= j < k ==> sessions[j].rounds[SubscribeEnd(sessions[j].rounds, 0)] != StopRequested
  {
    var k := ServeEnd(sessions, maxReads, true, 0);
    forall j | 0 <= j < k
      ensures sessions[j].rounds[SubscribeEnd(sessions[j].rounds, 0)] != StopRequested
    {
      assert !ServeEndsAt(sessions, maxReads, true, j);
    }
  }

  /** The tree after the first `n` sessions, in order. */
  function ServeEffect(root: Option<Node>, sessions: seq<Session>, n: nat, maxReads: int): Option<Node>
    requires n <= |sessions| && forall j :: 0 <= j < n ==> SessionOk(sessions[j], maxReads)
    decreases n
  {
    if n == 0 then root
    else SessionEffect(ServeEffect(root, sessions, n - 1, maxReads), sessions[n - 1], maxReads)
  }

  // ---------------------------------------------------------------------
  // Samples of `collect`

  datatype ValueKind = Gauge | Counter

  /** A sample handed to the exposition library: the record's name, its
      kind, the value as a number and the rewritten label values. */
  datatype Sample = Sample(name: string, kind: ValueKind, value: real, labelValues: seq<string>)

  /** A record is a counter exactly when its name mentions `counters`. */
  function KindOf(name: string): (r: ValueKind)
    ensures r == Counter <==> Contains(name, "counters")
  {
    if Contains(name, "counters") then Counter else Gauge
  }

  /** The number a value stands for; a string stands for the number the
      mapping gives it under the record's `/`-rooted name, and for nothing
      when either lookup misses. */
  function Coerce(v: Value, name: string, mapping: map<string, map<string, int>>): (r: Option<real>)
    ensures !v.StrValue? ==> r.Some?
    ensures v.StrValue? ==> (r.Some? <==> ("/" + name) in mapping && v.str in mapping["/" + name])
    ensures v.StrValue? && r.Some? ==> r.value == mapping["/" + name][v.str] as real
    ensures v.BoolValue? ==> r == Some(if v.b then 1.0 else 0.0)
    ensures v.IntValue? ==> r == Some(v.i as real)
  {
    match v
    case DoubleValue(d) => Some(d)
    case IntValue(i) => Some(i as real)
    case UintValue(u) => Some(u as real)
    case SintValue(i) => Some(i as real)
    case BoolValue(b) => Some(if b then 1.0 else 0.0)
    case StrValue(s) =>
      var key := "/" + name;
      if key !in mapping then None
      else if s !in mapping[key] then None
      else Some(mapping[key][s] as real)
  }

  /** The sample of one record: none for a nil value or an unmapped
      string. */
  function SampleOf(m: Metric, mapping: map<string, map<string, int>>): Option<Sample>
  {
    if m.value.None? then None
    else match Coerce(m.value.value, m.name, mapping)
      case None => None
      case Some(x) => Some(Sample(m.name, KindOf(m.name), x, PromLabelValues(m)))
  }

  function Samples(ms: seq<Metric>, mapping: map<string, map<string, int>>): seq<Sample>
    decreases |ms|
  {
    if ms == [] then []
    else
      var init := Samples(ms[..|ms| - 1], mapping);
      match SampleOf(ms[|ms| - 1], mapping)
      case None => init
      case Some(x) => init + [x]
  }

  lemma SamplesSnoc(ms: seq<Metric>, i: nat, mapping: map<string, map<string, int>>)
    requires i < |ms|
    ensures SampleOf(ms[i], mapping).None? ==> Samples(ms[..i + 1], mapping) == Samples(ms[..i], mapping)
    ensures SampleOf(ms[i], mapping).Some? ==>
      Samples(ms[..i + 1], mapping) == Samples(ms[..i], mapping) + [SampleOf(ms[i], mapping).value]
  {
    PrefixOfPrefix(ms, i + 1, i);
  }

  /** A record yields a sample exactly when its value is set and, for a
      string, both lookups hit; the sample is a counter exactly when the
      name mentions `counters`, and carries every label value. */
  lemma SampleOfIff(m: Metric, mapping: map<string, map<string, int>>)
    ensures SampleOf(m, mapping).Some? <==>
      m.value.Some?
      && (m.value.value.StrValue? ==>
            ("/" + m.name) in mapping && m.value.value.str in mapping["/" + m.name])
    ensures SampleOf(m, mapping).Some? ==>
      var x := SampleOf(m, mapping).value;
      x.name == m.name
      && (x.kind == Counter <==> Contains(m.name, "counters"))
      && |x.labelValues| == |m.labels|
      && (m.value.value.BoolValue? ==> x.value == if m.value.value.b then 1.0 else 0.0)
  {
  }

  /** Every sample comes from one record, in record order, and none is
      invented: the samples are the records' samples with the misses left
      out. */
  lemma {:induction false} SamplesFromRecords(ms: seq<Metric>, mapping: map<string, map<string, int>>)
    ensures |Samples(ms, mapping)| <= |ms|
    ensures forall x :: x in Samples(ms, mapping) ==> exists m :: m in ms && SampleOf(m, mapping) == Some(x)
    decreases |ms|
  {
    if ms != [] {
      var init := ms[..|ms| - 1];
      SamplesFromRecords(init, mapping);
      forall x | x in Samples(ms, mapping)
        ensures exists m :: m in ms && SampleOf(m, mapping) == Some(x)
      {
        if x in Samples(init, mapping) {
          var m :| m in init && SampleOf(m, mapping) == Some(x);
          assert m in ms;
        } else {
          assert ms[|ms| - 1] in ms;
        }
      }
    }
  }

  /** Every record with a sample contributes it. */
  lemma {:induction false} SamplesComplete(ms: seq<Metric>, mapping: map<string, map<string, int>>, i: nat)
    requires i < |ms| && SampleOf(ms[i], mapping).Some?
    ensures SampleOf(ms[i], mapping).value in Samples(ms, mapping)
    decreases |ms|
  {
    if i < |ms| - 1 {
      var init := ms[..|ms| - 1];
      assert init[i] == ms[i];
      SamplesComplete(init, mapping, i);
    }
  }

  /** The records of a tree's walk, none before the first write. */
  ghost function Records(root: Option<Node>): seq<Metric>
  {
    if root.None? then [] else Emit(root.value, "", [], [])
  }

  // ---------------------------------------------------------------------
  // The device

  class Target {
    var address: string
    var devName: string
    var paths: seq<ConfigPath>
    var metrics: Tree
    var stringValueMapping: map<string, map<string, int>>
    var reconnect: bool
    var maxReads: int

    ghost predicate Valid()
      reads this, metrics
    {
      metrics.Valid()
    }

    /** The configuration fields, which only the constructor sets. */
    twostate predicate Fixed()
      reads this
    {
      address == old(address) && devName == old(devName) && paths == old(paths)
      && stringValueMapping == old(stringValueMapping)
      && reconnect == old(reconnect) && maxReads == old(maxReads)
    }

    /** `newTarget`: the address is `hostname:port`, the tree empty, no
        read limit. */
    constructor (conf: TargetConfig, mapping: map<string, map<string, int>>, reconnect: bool)
      ensures address == conf.hostname + ":" + Decimal(conf.port)
      ensures devName == conf.hostname && paths == conf.paths
      ensures stringValueMapping == mapping && this.reconnect == reconnect && maxReads == 0
      ensures fresh(metrics) && metrics.root == None && Valid()
    {
      address := conf.hostname + ":" + Decimal(conf.port);
      devName := conf.hostname;
      paths := conf.paths;
      metrics := new Tree();
      stringValueMapping := mapping;
      this.reconnect := reconnect;
      maxReads := 0;
    }

    /** `subscriptionRequest`: no record or time limit, no end-of-sync
        marker, and one entry per configured path, in order, copying the
        path, the suppression flag and both intervals. */
    method NewSubscriptionRequest() returns (req: SubscriptionRequest)
      ensures req.additionalConfig == AdditionalConfig(-1, -1, false)
      ensures |req.pathList| == |paths|
      ensures forall i :: 0 <= i < |paths| ==>
        req.pathList[i] == SubscriptionPath(paths[i].path, paths[i].suppressUnchanged,
                                           paths[i].maxSilentIntervalMs, paths[i].sampleFrequencyMs)
    {
      var pathList: seq<SubscriptionPath> := [];
      for i := 0 to |paths|
        invariant |pathList| == i
        invariant forall j :: 0 <= j < i ==>
          pathList[j] == SubscriptionPath(paths[j].path, paths[j].suppressUnchanged,
                                         paths[j].maxSilentIntervalMs, paths[j].sampleFrequencyMs)
      {
        var p := paths[i];
        pathList := pathList + [SubscriptionPath(p.path, p.suppressUnchanged, p.maxSilentIntervalMs, p.sampleFrequencyMs)];
      }
      req := SubscriptionRequest(AdditionalConfig(-1, -1, false), pathList);
    }

    /** `subscribe`: attempts until one connects or a stop is signalled.
        Returns the round that ended the loop, the stream (the index of the
        connecting round, none when stopped) and the sleeps taken before
        each attempt, which follow the backoff schedule. */
    method Subscribe(rounds: seq<Round>) returns (stream: Option<nat>, last: nat, sleeps: seq<nat>)
      requires SubscribeEnds(rounds)
      ensures last == SubscribeEnd(rounds, 0)
      ensures stream == if rounds[last] == StopRequested then None else Some(last)
      ensures |sleeps| == if rounds[last] == StopRequested then last else last + 1
      ensures forall j :: 0 <= j < |sleeps| ==> sleeps[j] == BackoffAt(j)
    {
      ghost var end := SubscribeEnd(rounds, 0);
      var backoff: nat := 0;
      sleeps := [];
      var i := 0;
      while true
        invariant i <= end
        invariant backoff == BackoffAt(i)
        invariant sleeps == Schedule(i)
        decreases end - i
      {
        if rounds[i] == StopRequested {
          ScheduleAt(i);
          return None, i, sleeps;
        }
        sleeps := sleeps + [backoff];
        if rounds[i] == AttemptFailed {
          if backoff == 0 {
            backoff := BackoffInit;
            i := i + 1;
            continue;
          }
          if backoff < BackoffMax {
            backoff := backoff * 2;
            i := i + 1;
            continue;
          }
          i := i + 1;
          continue;
        }
        ScheduleAt(i + 1);
        return Some(i), i, sleeps;
      }
    }

    /** `processOpenConfigData`: the pairs of one batch in order, under a
        prefix that starts empty for every batch. */
    method ProcessOpenConfigData(data: OpenConfigData)
      requires Valid() && Routable("", data.kv)
      modifies metrics
      ensures Valid()
      ensures metrics.root == ApplyBatch(old(metrics.root), "", data.kv)
    {
      var prefix := "";
      for i := 0 to |data.kv|
        invariant Valid()
        invariant Routable("", data.kv[..i])
        invariant prefix == RunningPrefix("", data.kv[..i])
        invariant metrics.root == ApplyBatch(old(metrics.root), "", data.kv[..i])
      {
        var kv := data.kv[i];
        BatchSnoc("", data.kv, i, old(metrics.root));
        if kv.key == PrefixKey {
          if kv.value == None {
            prefix := "";
            continue;
          }
          match kv.value.value {
            case StrValue(s) =>
              prefix := s;
            case _ =>
          }
          continue;
        }
        if HasPrefix(kv.key, "__") {
          continue;
        }
        ghost var before := metrics.root;
        if HasSuffix(kv.key, DescriptionSuffix) {
          if kv.value == None {
            continue;
          }
          match kv.value.value {
            case StrValue(s) =>
              metrics.SetDescription(RemoveAll(prefix + kv.key, DescriptionSuffix), s);
            case _ =>
          }
        }
        metrics.Insert(prefix + kv.key, kv.value);
        EntryStep(before, prefix, kv);
        assert metrics.root == ApplyEntry(before, prefix, kv);
      }
      assert data.kv[..|data.kv|] == data.kv;
    }

    /** `process`: reads batches until a stop, a receive error (which
        replaces the tree by an empty one) or, when `maxReads` is positive,
        the `maxReads`-th batch. Returns the index of the event that ended
        the loop. */
    method Process(events: seq<RecvEvent>) returns (last: nat)
      requires Valid() && ProcessEnds(events, maxReads) && BatchesRoutable(events)
      modifies this, metrics
      ensures Valid() && Fixed()
      ensures last == ProcessEnd(events, maxReads, 0)
      ensures events[last].RecvError? ==> fresh(metrics) && metrics.root == None
      ensures !events[last].RecvError? ==>
        (metrics == old(metrics)
         && metrics.root == ApplyEvents(old(metrics.root), events[..Consumed(events, maxReads)]))
    {
      last := Receive(events);
      if events[last].RecvError? {
        metrics := new Tree();
      }
    }

    /** The loop of `process` up to the event that ends it, the batches
        applied to the tree in place. The tree is replaced, on a receive
        error, by `Process` once the loop has ended, which is the last
        thing the source does before leaving the loop. */
    method Receive(events: seq<RecvEvent>) returns (last: nat)
      requires Valid() && ProcessEnds(events, maxReads) && BatchesRoutable(events)
      modifies metrics
      ensures Valid()
      ensures last == ProcessEnd(events, maxReads, 0)
      ensures metrics.root == ApplyEvents(old(metrics.root), events[..Consumed(events, maxReads)])
    {
      ghost var end := ProcessEnd(events, maxReads, 0);
      ghost var r0 := metrics.root;
      var i := 0;
      while true
        invariant i <= end && Valid()
        invariant BatchesRoutable(events[..i])
        invariant metrics.root == ApplyEvents(r0, events[..i])
        decreases end - i
      {
        if events[i].Stop? || events[i].RecvError? {
          ProcessEndAt(events, maxReads, i);
          return i;
        }
        ProcessBatch(events, i, r0);
        i := i + 1;
        if maxReads > 0 && i >= maxReads {
          ProcessEndAt(events, maxReads, i - 1);
          return i - 1;
        }
        assert !EndsAt(events, maxReads, i - 1);
      }
    }

    /** One batch of the `process` loop, read after the events before
        it. */
    method ProcessBatch(events: seq<RecvEvent>, i: nat, ghost r0: Option<Node>)
      requires Valid() && BatchesRoutable(events) && i < |events| && events[i].Batch?
      requires BatchesRoutable(events[..i]) && metrics.root == ApplyEvents(r0, events[..i])
      modifies metrics
      ensures Valid() && BatchesRoutable(events[..i + 1])
      ensures metrics.root == ApplyEvents(r0, events[..i + 1])
    {
      ApplyEventsSnoc(r0, events, i);
      ProcessOpenConfigData(events[i].data);
    }

    /** `Serve`: subscribe, then process the stream; over again while
        reconnecting is on, until a subscription is stopped. Returns the
        index of the last session. */
    method Serve(sessions: seq<Session>) returns (used: nat)
      requires Valid() && ServeEndsFrom(sessions, maxReads, reconnect, 0)
      modifies this, metrics
      ensures Valid() && Fixed()
      ensures used == ServeEnd(sessions, maxReads, reconnect, 0)
      ensures metrics.root == ServeEffect(old(metrics.root), sessions, used + 1, maxReads)
    {
      ghost var end := ServeEnd(sessions, maxReads, reconnect, 0);
      ghost var root0 := metrics.root;
      var i := 0;
      while true
        invariant i <= end && Valid() && Fixed()
        invariant fresh(metrics) || metrics == old(metrics)
        invariant metrics.root == ServeEffect(root0, sessions, i, maxReads)
        decreases end - i
      {
        var stopped := ServeStep(sessions, i, root0);
        if stopped || !reconnect {
          ServeEndAt(sessions, maxReads, reconnect, i);
          return i;
        }
        assert !ServeEndsAt(sessions, maxReads, reconnect, i);
        i := i + 1;
      }
    }

    /** One session of the `Serve` loop, after the ones before it. */
    method ServeStep(sessions: seq<Session>, i: nat, ghost root0: Option<Node>) returns (stopped: bool)
      requires Valid() && i < |sessions| && SessionOk(sessions[i], maxReads)
      requires forall j :: 0 <= j < i ==> SessionOk(sessions[j], maxReads)
      requires metrics.root == ServeEffect(root0, sessions, i, maxReads)
      modifies this, metrics
      ensures Valid() && Fixed()
      ensures fresh(metrics) || metrics == old(metrics)
      ensures stopped <==> sessions[i].rounds[SubscribeEnd(sessions[i].rounds, 0)] == StopRequested
      ensures metrics.root == ServeEffect(root0, sessions, i + 1, maxReads)
    {
      stopped := ServeSession(sessions[i]);
    }

    /** One round of `Serve`: subscribe and, unless stopped, process the
        stream. Says whether the subscription was stopped. */
    method ServeSession(s: Session) returns (stopped: bool)
      requires Valid() && SessionOk(s, maxReads)
      modifies this, metrics
      ensures Valid() && Fixed()
      ensures fresh(metrics) || metrics == old(metrics)
      ensures stopped <==> s.rounds[SubscribeEnd(s.rounds, 0)] == StopRequested
      ensures metrics.root == SessionEffect(old(metrics.root), s, maxReads)
    {
      var stream, _, _ := Subscribe(s.rounds);
      if stream == None {
        return true;
      }
      var _ := Process(s.events);
      return false;
    }

    /** `collect`: one sample per record of the tree that has a value and,
        for a string, a mapped number; a counter when the name mentions
        `counters`, a gauge otherwise. */
    method Collect() returns (samples: seq<Sample>)
      ensures samples == Samples(Records(metrics.root), stringValueMapping)
    {
      var res := metrics.GetMetrics();
      samples := CollectRecords(res);
    }

    /** The loop of `collect` over the records of the tree. */
    method CollectRecords(res: seq<Metric>) returns (samples: seq<Sample>)
      ensures samples == Samples(res, stringValueMapping)
    {
      samples := [];
      for i := 0 to |res|
        invariant samples == Samples(res[..i], stringValueMapping)
      {
        var m := res[i];
        SamplesSnoc(res, i, stringValueMapping);
        if m.value == None {
          continue;
        }
        var kind := Gauge;
        if Contains(m.name, "counters") {
          kind := Counter;
        }
        assert kind == KindOf(m.name);
        var v: real := 0.0;
        var mv := m.value.value;
        match mv {
          case DoubleValue(d) =>
            v := d;
          case IntValue(x) =>
            v := x as real;
          case UintValue(x) =>
            v := x as real;
          case SintValue(x) =>
            v := x as real;
          case BoolValue(b) =>
            if b {
              v := 1.0;
            }
          case StrValue(str) =>
            if "/" + m.name !in stringValueMapping {
              assert Coerce(mv, m.name, stringValueMapping) == None;
              continue;
            }
            if str !in stringValueMapping["/" + m.name] {
              assert Coerce(mv, m.name, stringValueMapping) == None;
              continue;
            }
            v := stringValueMapping["/" + m.name][str] as real;
        }
        assert Coerce(mv, m.name, stringValueMapping) == Some(v);
        assert SampleOf(m, stringValueMapping) == Some(Sample(m.name, kind, v, PromLabelValues(m)));
        samples := samples + [Sample(m.name, kind, v, PromLabelValues(m))];
      }
      assert res[..|res|] == res;
    }
  }
}
