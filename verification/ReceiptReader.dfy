/**
 createSignedReceiptGitReader: a memo with one optional prefetch in front of individual git
 reads. The repository is a function of time and arguments.
 */
module ReceiptReader {
  import opened Results
  import opened ReceiptBatch

  /** What git answers at a given moment. */
  type World = (nat, Args) -> GitResult

  /** What a prefetch finds at a given moment; None when it throws. */
  type Prefetch = nat -> Option<seq<GitRead>>

  predicate Pinned(args: Args) {
    SignedReceiptObject(args).Some?
  }

  /** Once a pinned read succeeds it succeeds alike for good. It may start to succeed at any time. */
  ghost predicate Immutable(world: World) {
    forall args, s, t :: s <= t && Pinned(args) && world(s, args).exitCode == 0 ==> world(t, args) == world(s, args)
  }

  /** The successful pinned observations of a prefetch are what git would have answered then. */
  ghost predicate Honest(prefetch: Prefetch, world: World) {
    forall t :: prefetch(t).Some? ==> HonestReads(prefetch(t).value, world, t)
  }

  ghost predicate HonestReads(observations: seq<GitRead>, world: World, t: nat) {
    forall i :: 0 <= i < |observations| && observations[i].result.exitCode == 0 && Pinned(observations[i].args)
      ==> world(t, observations[i].args) == observations[i].result
  }

  /** The two variables the reader closes over. */
  datatype ReaderState = ReaderState(successful: map<Args, GitResult>, pending: Option<Prefetch>)

  /** The memo after taking in prefetched observations, later ones winning. */
  function Absorb(successful: map<Args, GitResult>, observations: seq<GitRead>): map<Args, GitResult> {
    if observations == [] then successful
    else
      var k := |observations| - 1;
      var before := Absorb(successful, observations[..k]);
      if observations[k].result.exitCode == 0 && Pinned(observations[k].args) then before[observations[k].args := observations[k].result]
      else before
  }

  /** The state once a pinned query has used up the prefetch. */
  function Fetched(state: ReaderState, now: nat): ReaderState {
    match state.pending
    case None => state
    case Some(attempt) =>
      match attempt(now)
      case Some(observations) => ReaderState(Absorb(state.successful, observations), None)
      case None => ReaderState(state.successful, None)
  }

  /** One query: the answer and the state it leaves. */
  function Answer(state: ReaderState, world: World, args: Args, now: nat): (GitResult, ReaderState) {
    if !Pinned(args) then (world(now, args), state)
    else
      var fetched := Fetched(state, now);
      if args in fetched.successful then (fetched.successful[args], fetched)
      else
        var result := world(now, args);
        (result, if result.exitCode == 0 then fetched.(successful := fetched.successful[args := result]) else fetched)
  }

  class SignedReceiptGitReader {
    const read: World
    var successful: map<Args, GitResult>
    var pendingPrefetch: Option<Prefetch>

    ghost function State(): ReaderState
      reads this
    {
      ReaderState(successful, pendingPrefetch)
    }

    constructor (read: World, prefetch: Option<Prefetch>)
      ensures this.read == read && State() == ReaderState(map[], prefetch)
    {
      this.read := read;
      successful, pendingPrefetch := map[], prefetch;
    }

    method Query(args: Args, now: nat) returns (r: GitResult)
      modifies this
      ensures (r, State()) == Answer(old(State()), read, args, now)
    {
      if SignedReceiptObject(args).None? {
        return read(now, args);
      }
      if pendingPrefetch.Some? {
        var attempt := pendingPrefetch.value;
        pendingPrefetch := None;
        var observations := attempt(now);
        if observations.Some? {
          TakeIn(observations.value);
        }
      }
      if args in successful {
        return successful[args];
      }
      r := read(now, args);
      if r.exitCode == 0 {
        successful := successful[args := r];
      }
    }

    /** The loop over the prefetched observations. */
    method TakeIn(observations: seq<GitRead>)
      modifies this`successful
      ensures successful == Absorb(old(successful), observations)
    {
      for i := 0 to |observations|
        invariant successful == Absorb(old(successful), observations[..i])
      {
        assert observations[..i + 1][..i] == observations[..i];
        if observations[i].result.exitCode == 0 && SignedReceiptObject(observations[i].args).Some? {
          successful := successful[observations[i].args := observations[i].result];
        }
      }
      assert observations[..|observations|] == observations;
    }
  }

  // ----- one query

  /** Everything in the memo is pinned, succeeded, and is still what git answers. */
  ghost predicate Current(state: ReaderState, world: World, now: nat) {
    forall args :: args in state.successful ==>
      Pinned(args) && state.successful[args].exitCode == 0 && world(now, args) == state.successful[args]
  }

  ghost predicate HonestPending(state: ReaderState, world: World) {
    state.pending.Some? ==> Honest(state.pending.value, world)
  }

  lemma {:induction false} AbsorbCurrent(successful: map<Args, GitResult>, pending: Option<Prefetch>,
                                         observations: seq<GitRead>, world: World, now: nat)
    requires Current(ReaderState(successful, pending), world, now) && HonestReads(observations, world, now)
    ensures Current(ReaderState(Absorb(successful, observations), None), world, now)
  {
    if observations != [] {
      AbsorbCurrent(successful, pending, observations[..|observations| - 1], world, now);
    }
  }

  lemma FetchedCurrent(state: ReaderState, world: World, now: nat)
    requires Current(state, world, now) && HonestPending(state, world)
    ensures Current(Fetched(state, now), world, now) && Fetched(state, now).pending == None
  {
    match state.pending
    case None =>
    case Some(attempt) =>
      if attempt(now).Some? {
        AbsorbCurrent(state.successful, state.pending, attempt(now).value, world, now);
      }
  }

  /** A query through the reader answers what git answers at that moment. */
  lemma AnswerTransparent(state: ReaderState, world: World, args: Args, now: nat)
    requires Current(state, world, now) && HonestPending(state, world)
    ensures Answer(state, world, args, now).0 == world(now, args)
    ensures Current(Answer(state, world, args, now).1, world, now)
    ensures HonestPending(Answer(state, world, args, now).1, world)
  {
    if Pinned(args) {
      FetchedCurrent(state, world, now);
    }
  }

  lemma CurrentLater(state: ReaderState, world: World, s: nat, t: nat)
    requires Immutable(world) && Current(state, world, s) && s <= t
    ensures Current(state, world, t)
  {
  }

  // ----- runs

  datatype Query = Query(now: nat, args: Args)

  function Run(state: ReaderState, world: World, queries: seq<Query>): (seq<GitResult>, ReaderState) {
    if queries == [] then ([], state)
    else
      var k := |queries| - 1;
      var (results, before) := Run(state, world, queries[..k]);
      var (result, after) := Answer(before, world, queries[k].args, queries[k].now);
      (results + [result], after)
  }

  ghost predicate InTime(queries: seq<Query>) {
    forall i, j :: 0 <= i < j < |queries| ==> queries[i].now <= queries[j].now
  }

  function Direct(world: World, queries: seq<Query>): (r: seq<GitResult>)
    ensures |r| == |queries| && forall i :: 0 <= i < |r| ==> r[i] == world(queries[i].now, queries[i].args)
  {
    if queries == [] then []
    else Direct(world, queries[..|queries| - 1]) + [world(queries[|queries| - 1].now, queries[|queries| - 1].args)]
  }

  /** For every run of queries the reader is indistinguishable from reading git every time. */
  lemma {:induction false} RunTransparent(prefetch: Option<Prefetch>, world: World, queries: seq<Query>, now: nat)
    requires Immutable(world) && (prefetch.Some? ==> Honest(prefetch.value, world)) && InTime(queries)
    requires queries != [] ==> queries[|queries| - 1].now <= now
    ensures Run(ReaderState(map[], prefetch), world, queries).0 == Direct(world, queries)
    ensures Current(Run(ReaderState(map[], prefetch), world, queries).1, world, now)
    ensures HonestPending(Run(ReaderState(map[], prefetch), world, queries).1, world)
  {
    if queries != [] {
      var k := |queries| - 1;
      RunTransparent(prefetch, world, queries[..k], queries[k].now);
      var before := Run(ReaderState(map[], prefetch), world, queries[..k]).1;
      AnswerTransparent(before, world, queries[k].args, queries[k].now);
      CurrentLater(Answer(before, world, queries[k].args, queries[k].now).1, world, queries[k].now, now);
    }
  }

  /** How often a run calls its prefetch. */
  function Attempts(state: ReaderState, world: World, queries: seq<Query>): nat {
    if queries == [] then 0
    else
      var k := |queries| - 1;
      var before := Run(state, world, queries[..k]).1;
      Attempts(state, world, queries[..k]) + (if before.pending.Some? && Pinned(queries[k].args) then 1 else 0)
  }

  ghost predicate AsksPinned(queries: seq<Query>) {
    exists i :: 0 <= i < |queries| && Pinned(queries[i].args)
  }

  lemma AsksNext(queries: seq<Query>)
    requires queries != []
    ensures AsksPinned(queries) <==> AsksPinned(queries[..|queries| - 1]) || Pinned(queries[|queries| - 1].args)
  {
    var k := |queries| - 1;
    if AsksPinned(queries[..k]) {
      var i :| 0 <= i < k && Pinned(queries[..k][i].args);
      assert Pinned(queries[i].args);
    }
    if AsksPinned(queries) {
      var i :| 0 <= i < |queries| && Pinned(queries[i].args);
      assert i < k ==> queries[..k][i] == queries[i];
    }
  }

  /** A run prefetches once if it asks for anything pinned, and not at all otherwise. */
  lemma {:induction false} PrefetchedOnce(prefetch: Prefetch, world: World, queries: seq<Query>)
    ensures Attempts(ReaderState(map[], Some(prefetch)), world, queries) == if AsksPinned(queries) then 1 else 0
    ensures Run(ReaderState(map[], Some(prefetch)), world, queries).1.pending.Some? <==> !AsksPinned(queries)
  {
    if queries != [] {
      var k := |queries| - 1;
      PrefetchedOnce(prefetch, world, queries[..k]);
      AsksNext(queries);
    }
  }

  /** Whatever the prefetch and git do, no failure and no mutable query is ever remembered. */
  ghost predicate OnlySuccesses(successful: map<Args, GitResult>) {
    forall args :: args in successful ==> Pinned(args) && successful[args].exitCode == 0
  }

  lemma {:induction false} AbsorbOnlySuccesses(successful: map<Args, GitResult>, observations: seq<GitRead>)
    requires OnlySuccesses(successful)
    ensures OnlySuccesses(Absorb(successful, observations))
  {
    if observations != [] {
      AbsorbOnlySuccesses(successful, observations[..|observations| - 1]);
    }
  }

  lemma {:induction false} FailuresNeverCached(prefetch: Option<Prefetch>, world: World, queries: seq<Query>)
    ensures OnlySuccesses(Run(ReaderState(map[], prefetch), world, queries).1.successful)
  {
    if queries != [] {
      var k := |queries| - 1;
      FailuresNeverCached(prefetch, world, queries[..k]);
      var before := Run(ReaderState(map[], prefetch), world, queries[..k]).1;
      if Pinned(queries[k].args) && before.pending.Some? && before.pending.value(queries[k].now).Some? {
        AbsorbOnlySuccesses(before.successful, before.pending.value(queries[k].now).value);
      }
    }
  }

  // ----- what is remembered, whatever git would say

  /** Queries that name nothing immutable go to git each time and leave the reader as it was. */
  lemma OthersPassThrough(state: ReaderState, world: World, args: Args, now: nat)
    requires SignedReceiptObject(args).None?
    ensures Answer(state, world, args, now) == (world(now, args), state)
  {
  }

  /** A pinned success is answered again without git; a failure is asked again. */
  lemma SuccessIsRemembered(state: ReaderState, world: World, args: Args, now: nat, other: World, later: nat)
    requires SignedReceiptObject(args).Some? && forall known :: known in state.successful ==> state.successful[known].exitCode == 0
    ensures var (result, after) := Answer(state, world, args, now);
            && (result.exitCode == 0 ==> Answer(after, other, args, later) == (result, after))
            && (result.exitCode != 0 && state.pending.None? ==> Answer(after, other, args, later).0 == other(later, args))
  {
  }

  lemma {:induction false} AbsorbedLast(successful: map<Args, GitResult>, observations: seq<GitRead>, i: nat)
    requires i < |observations| && observations[i].result.exitCode == 0 && Pinned(observations[i].args)
    requires forall j :: i < j < |observations| ==> observations[j].args != observations[i].args
    ensures observations[i].args in Absorb(successful, observations)
    ensures Absorb(successful, observations)[observations[i].args] == observations[i].result
  {
    if i < |observations| - 1 {
      AbsorbedLast(successful, observations[..|observations| - 1], i);
    }
  }

  /** A prefetched success is answered without git. */
  lemma PrefetchServes(state: ReaderState, attempt: Prefetch, observations: seq<GitRead>, i: nat, world: World, now: nat)
    requires state.pending == Some(attempt) && attempt(now) == Some(observations) && i < |observations|
    requires observations[i].result.exitCode == 0 && SignedReceiptObject(observations[i].args).Some?
    requires forall j :: i < j < |observations| ==> observations[j].args != observations[i].args
    ensures Answer(state, world, observations[i].args, now).0 == observations[i].result
  {
    AbsorbedLast(state.successful, observations, i);
  }

  // ----- the batch as a prefetch

  /** The object database at one moment, by name. */
  type Store = Bytes -> Reply

  /** Individual reads of existing commits and blobs succeed with what the object database holds. */
  ghost predicate StoreAgrees(store: Store, world: World, t: nat) {
    && (forall name :: ValidReply(store(name)))
    && (forall name :: IsPinnedName(name) && EndsWith(name, CommitSuffix())
          && store(name).Found? && store(name).kind == Commit
          ==> world(t, [Ascii("cat-file"), Ascii("-e"), name]) == GitResult(0, []))
    && (forall name :: IsPinnedName(name) && store(name).Found? && store(name).kind == Blob
          ==> world(t, [Ascii("show"), name]) == GitResult(0, store(name).body))
  }

  function Replies(store: Store, names: seq<Bytes>): (r: seq<Reply>)
    ensures |r| == |names| && forall i :: 0 <= i < |r| ==> r[i] == store(names[i])
  {
    seq(|names|, i requires 0 <= i < |names| => store(names[i]))
  }

  /** `git cat-file --batch` fails or prints the framing of the database. */
  ghost predicate BatchPrints(batch: Bytes -> Option<GitResult>, store: Store) {
    forall names :: Askable(names) && Usable(batch(Lines(names)))
      ==> batch(Lines(names)).value.stdout == FrameAll(names, Replies(store, names))
  }

  lemma ObservedHonest(request: BatchRequest, store: Store, world: World, t: nat)
    requires Eligible(request.args) && SignedReceiptObject(request.args) == Some(request.target)
    requires StoreAgrees(store, world, t)
    ensures HonestReads(Observed(request, store(request.target)), world, t)
  {
    var args := request.args;
    if IsCatFile(args) {
      assert args == [Ascii("cat-file"), Ascii("-e"), args[2]];
      assert Ascii("cat-file")[0] != Ascii("show")[0];
    } else {
      assert args == [Ascii("show"), args[1]];
      assert Ascii("cat-file")[0] != Ascii("show")[0];
    }
  }

  lemma {:induction false} ObservedAllHonest(requests: seq<BatchRequest>, store: Store, world: World, t: nat)
    requires forall i :: 0 <= i < |requests| ==>
               Eligible(requests[i].args) && SignedReceiptObject(requests[i].args) == Some(requests[i].target)
    requires StoreAgrees(store, world, t)
    ensures HonestReads(ObservedAll(requests, Replies(store, ObjectsOf(requests))), world, t)
  {
    if requests != [] {
      var k := |requests| - 1;
      ObservedAllHonest(requests[..k], store, world, t);
      ObservedHonest(requests[k], store, world, t);
      assert Replies(store, ObjectsOf(requests))[..k] == Replies(store, ObjectsOf(requests[..k]));
    }
  }

  /** The decoded batch is an honest prefetch. */
  lemma BatchIsHonest(queries: seq<Args>, batch: Bytes -> Option<GitResult>, store: Store, world: World, t: nat,
                      r: seq<GitRead>)
    requires BatchReads(queries, batch, r) && BatchPrints(batch, store) && StoreAgrees(store, world, t)
    ensures HonestReads(r, world, t)
  {
    var requests := Requests(queries);
    var names := ObjectsOf(requests);
    if requests != [] && Usable(batch(Lines(names))) {
      RequestsAskable(queries);
      var replies := Replies(store, names);
      assert IsFraming(batch(Lines(names)).value.stdout, names, replies);
      ObservedAllHonest(requests, store, world, t);
    }
  }

  /** The reader over the batch: prefetched, cached, and still what individual reads return. */
  lemma BatchedReaderTransparent(queries: seq<Args>, batch: nat -> (Bytes -> Option<GitResult>), store: nat -> Store,
                                 prefetch: Prefetch, world: World, asked: seq<Query>)
    requires Immutable(world) && InTime(asked)
    requires forall t :: BatchPrints(batch(t), store(t)) && StoreAgrees(store(t), world, t)
    requires forall t :: prefetch(t).Some? ==> BatchReads(queries, batch(t), prefetch(t).value)
    ensures Run(ReaderState(map[], Some(prefetch)), world, asked).0 == Direct(world, asked)
  {
    forall t | prefetch(t).Some?
      ensures HonestReads(prefetch(t).value, world, t)
    {
      BatchIsHonest(queries, batch(t), store(t), world, t, prefetch(t).value);
    }
    RunTransparent(Some(prefetch), world, asked, if asked == [] then 0 else asked[|asked| - 1].now);
  }
}
