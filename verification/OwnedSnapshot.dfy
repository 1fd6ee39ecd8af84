/**
 The memoised deep copy that gives the runtime its own frozen image of a command outcome, on a heap
 of objects that anyone may write to.
 */
module OwnedSnapshot {
  // snapshotOwnedValue and snapshotReadonlyMap of adapter.ts. Properties are plain values: accessors, proxies and
  // symbols are not part of this model.

  import opened Results

  /** What an object is to the copier: its prototype, or the exotic class it belongs to. */
  datatype Kind =
    | ArrayKind
    | RecordKind               // Object.prototype
    | NullRecordKind           // no prototype
    | ErrorKind(proto: string) // an instance of Error or of one of its subclasses
    | MapKind
    | FacadeKind               // the read-only stand-in built for a Map
    | OtherKind                // any other prototype

  datatype Primitive = Undefined | Null | Boolean(b: bool) | Number(n: int) | Text(t: string)

  datatype Value = Prim(p: Primitive) | Func | Ref(o: JsObject)

  datatype Property = Property(key: string, value: Value, enumerable: bool, locked: bool)

  datatype Entry = Entry(key: Value, value: Value)

  /** An object of the JavaScript heap. */
  class JsObject {
    const kind: Kind
    var props: seq<Property>  // own properties in key order, an array's length apart
    var length: nat           // of an array; the size of a facade
    var entries: seq<Entry>   // of a Map or a facade, in insertion order
    var frozen: bool

    constructor (kind: Kind)
      ensures this.kind == kind && props == [] && length == 0 && entries == [] && !frozen
    {
      this.kind := kind;
      props, length, entries, frozen := [], 0, [], false;
    }
  }

  /** The WeakMap from source objects to their images. */
  class Seen {
    var m: map<JsObject, JsObject>

    constructor ()
      ensures m == map[]
    {
      m := map[];
    }
  }

  datatype SnapshotError = UnsupportedFunction | UnsupportedObject

  /** The prototype of the image. Error subclasses become plain errors, Maps become facades. */
  function ImageKind(kind: Kind): Kind {
    match kind
    case ErrorKind(_) => ErrorKind("Error")
    case MapKind => FacadeKind
    case _ => kind
  }

  predicate SupportedKind(kind: Kind) {
    !kind.OtherKind? && !kind.FacadeKind?
  }

  predicate HasEntries(kind: Kind) {
    kind.MapKind? || kind.FacadeKind?
  }

  ghost predicate Within(v: Value, s: set<JsObject>) {
    v.Ref? ==> v.o in s
  }

  /** Everything an object of `s` refers to is in `s`. */
  ghost predicate Closed(s: set<JsObject>)
    reads s
  {
    forall o :: o in s ==>
      if HasEntries(o.kind)
      then forall i :: 0 <= i < |o.entries| ==> Within(o.entries[i].key, s) && Within(o.entries[i].value, s)
      else forall i :: 0 <= i < |o.props| ==> Within(o.props[i].value, s)
  }

  /** No object of `s` has an unsupported prototype or holds a function. */
  ghost predicate Supported(s: set<JsObject>)
    reads s
  {
    forall o :: o in s ==> SupportedObject(o)
  }

  ghost predicate SupportedObject(o: JsObject)
    reads o
  {
    && SupportedKind(o.kind)
    && if o.kind == MapKind
       then forall i :: 0 <= i < |o.entries| ==> !o.entries[i].key.Func? && !o.entries[i].value.Func?
       else forall i :: 0 <= i < |o.props| ==> !o.props[i].value.Func?
  }

  ghost predicate HoldsFunction(o: JsObject)
    reads o
  {
    if o.kind == MapKind
    then exists i :: 0 <= i < |o.entries| && (o.entries[i].key.Func? || o.entries[i].value.Func?)
    else exists i :: 0 <= i < |o.props| && o.props[i].value.Func?
  }

  /** Some object of `s` is a reason for the error. A facade is one: its methods are functions. */
  ghost predicate Explained(error: SnapshotError, s: set<JsObject>)
    reads s
  {
    match error
    case UnsupportedFunction => exists o :: o in s && (o.kind == FacadeKind || HoldsFunction(o))
    case UnsupportedObject => exists o :: o in s && o.kind == OtherKind
  }

  ghost predicate ValueCopied(v: Value, c: Value, m: map<JsObject, JsObject>) {
    match v
    case Prim(_) => c == v
    case Func => false
    case Ref(o) => o in m && c == Ref(m[o])
  }

  ghost predicate PropsCopied(ps: seq<Property>, cs: seq<Property>, m: map<JsObject, JsObject>) {
    && |ps| == |cs|
    && forall i :: 0 <= i < |ps| ==>
         && cs[i].key == ps[i].key && cs[i].enumerable == ps[i].enumerable && cs[i].locked
         && ValueCopied(ps[i].value, cs[i].value, m)
  }

  ghost predicate EntriesCopied(es: seq<Entry>, cs: seq<Entry>, m: map<JsObject, JsObject>) {
    && |es| == |cs|
    && forall i :: 0 <= i < |es| ==>
         ValueCopied(es[i].key, cs[i].key, m) && ValueCopied(es[i].value, cs[i].value, m)
  }

  /** `c` is the finished image of `o`, references translated by `m`. */
  ghost predicate Copied(o: JsObject, c: JsObject, m: map<JsObject, JsObject>)
    reads o, c
  {
    && SupportedKind(o.kind) && c.kind == ImageKind(o.kind) && c.frozen
    && if o.kind == MapKind
       then c.props == [] && c.length == |o.entries| && EntriesCopied(o.entries, c.entries, m)
       else
         && PropsCopied(o.props, c.props, m) && c.entries == []
         && (o.kind == ArrayKind ==> c.length == o.length)
  }

  ghost predicate Injective(m: map<JsObject, JsObject>) {
    forall a, b :: a in m && b in m && m[a] == m[b] ==> a == b
  }

  /** The memo after any number of calls: complete images, except for the objects still open. */
  ghost predicate Consistent(m: map<JsObject, JsObject>, s: set<JsObject>, open: set<JsObject>)
    reads s, m.Values
  {
    && m.Keys <= s && open <= m.Keys
    && Injective(m)
    && (forall o :: o in m ==> m[o] !in s)
    && (forall o :: o in m && o !in open ==> Copied(o, m[o], m))
  }

  ghost predicate Extends(m: map<JsObject, JsObject>, n: map<JsObject, JsObject>) {
    forall o :: o in m ==> o in n && n[o] == m[o]
  }

  // ----- what each step does to the memo

  lemma OpenImage(m: map<JsObject, JsObject>, s: set<JsObject>, open: set<JsObject>,
                  source: JsObject, target: JsObject)
    requires Consistent(m, s, open) && source in s && source !in m
    requires target !in s && target !in m.Values
    ensures Consistent(m[source := target], s, open + {source})
    ensures Extends(m, m[source := target])
  {
    var n := m[source := target];
    forall o | o in m
      ensures n[o] == m[o] && m[o] in m.Values
    {
    }
    forall o | o in n && o !in open + {source}
      ensures Copied(o, n[o], n)
    {
      CopiedInLargerMemo(o, m[o], m, n);
    }
  }

  lemma CopiedInLargerMemo(o: JsObject, c: JsObject, m: map<JsObject, JsObject>, n: map<JsObject, JsObject>)
    requires Copied(o, c, m) && Extends(m, n)
    ensures Copied(o, c, n)
  {
  }

  lemma CloseImage(m: map<JsObject, JsObject>, s: set<JsObject>, open: set<JsObject>, source: JsObject)
    requires Consistent(m, s, open + {source}) && open <= m.Keys && source in m
    requires Copied(source, m[source], m)
    ensures Consistent(m, s, open)
  {
  }

  lemma PropertyCopied(ps: seq<Property>, i: nat, cs: seq<Property>, owned: Value,
                     m: map<JsObject, JsObject>, n: map<JsObject, JsObject>)
    requires i < |ps| && PropsCopied(ps[..i], cs, m) && Extends(m, n) && ValueCopied(ps[i].value, owned, n)
    ensures PropsCopied(ps[..i + 1], cs + [Property(ps[i].key, owned, ps[i].enumerable, true)], n)
  {
  }

  lemma EntryCopied(es: seq<Entry>, i: nat, cs: seq<Entry>, key: Value, value: Value,
                  m: map<JsObject, JsObject>, n: map<JsObject, JsObject>)
    requires i < |es| && EntriesCopied(es[..i], cs, m) && Extends(m, n)
    requires ValueCopied(es[i].key, key, n) && ValueCopied(es[i].value, value, n)
    ensures EntriesCopied(es[..i + 1], cs + [Entry(key, value)], n)
  {
  }

  lemma ValueInLargerMemo(v: Value, c: Value, m: map<JsObject, JsObject>, n: map<JsObject, JsObject>)
    requires ValueCopied(v, c, m) && Extends(m, n)
    ensures ValueCopied(v, c, n)
  {
  }

  /** Object.defineProperty on the image of the open object `source`. */
  method DefineProperty(target: JsObject, property: Property, ghost source: JsObject,
                        ghost m: map<JsObject, JsObject>, ghost s: set<JsObject>, ghost open: set<JsObject>)
    requires source in open && source in m && m[source] == target && Consistent(m, s, open)
    modifies target
    ensures Consistent(m, s, open)
    ensures target.props == old(target.props) + [property]
    ensures target.entries == old(target.entries)
  {
    target.props := target.props + [property];
    forall o | o in m && o !in open
      ensures Copied(o, m[o], m)
    {
      assert m[o] != m[source] && m[o] in m.Values;
      assert old(Copied(o, m[o], m));
    }
  }

  /** The defining of length and the freeze that end the copy of anything but a Map. */
  method FinishTarget(target: JsObject, source: JsObject,
                      ghost m: map<JsObject, JsObject>, ghost s: set<JsObject>, ghost open: set<JsObject>)
    requires source in open && source in m && m[source] == target && Consistent(m, s, open)
    modifies target
    ensures Consistent(m, s, open)
    ensures target.props == old(target.props) && target.entries == old(target.entries) && target.frozen
    ensures target.length == if source.kind == ArrayKind then source.length else old(target.length)
  {
    if source.kind == ArrayKind {
      target.length := source.length;
    }
    target.frozen := true;
    forall o | o in m && o !in open
      ensures Copied(o, m[o], m)
    {
      assert m[o] != m[source] && m[o] in m.Values;
      assert old(Copied(o, m[o], m));
    }
  }

  /** The Object.defineProperties and the freeze that end the copy of a Map. */
  method FinishFacade(facade: JsObject, ownedEntries: seq<Entry>, ghost source: JsObject,
                      ghost m: map<JsObject, JsObject>, ghost s: set<JsObject>, ghost open: set<JsObject>)
    requires source in open && source in m && m[source] == facade && Consistent(m, s, open)
    modifies facade
    ensures Consistent(m, s, open)
    ensures facade.props == old(facade.props) && facade.entries == ownedEntries && facade.frozen
    ensures facade.length == |ownedEntries|
  {
    facade.entries, facade.length, facade.frozen := ownedEntries, |ownedEntries|, true;
    forall o | o in m && o !in open
      ensures Copied(o, m[o], m)
    {
      assert m[o] != m[source] && m[o] in m.Values;
      assert old(Copied(o, m[o], m));
    }
  }

  method SnapshotReadonlyMap(source: JsObject, seen: Seen, ghost s: set<JsObject>, ghost open: set<JsObject>)
    returns (r: Result<JsObject, SnapshotError>)
    requires source.kind == MapKind && source in s && source !in seen.m && Closed(s)
    requires Consistent(seen.m, s, open)
    modifies seen
    ensures Extends(old(seen.m), seen.m)
    ensures forall o :: o in seen.m && o !in old(seen.m) ==> fresh(seen.m[o])
    ensures r.Ok? ==> Consistent(seen.m, s, open) && source in seen.m && r.value == seen.m[source]
    ensures r.Err? ==> Explained(r.error, s)
    decreases s - seen.m.Keys, 1
  {
    var facade := new JsObject(FacadeKind);
    OpenImage(seen.m, s, open, source, facade);
    seen.m := seen.m[source := facade];
    var ownedEntries := [];
    var i := 0;
    while i < |source.entries|
      invariant 0 <= i <= |source.entries|
      invariant fresh(facade) && facade.kind == FacadeKind && facade.props == [] && facade.entries == []
      invariant source in seen.m && seen.m[source] == facade
      invariant Extends(old(seen.m), seen.m)
      invariant forall o :: o in seen.m && o !in old(seen.m) ==> fresh(seen.m[o])
      invariant Consistent(seen.m, s, open + {source})
      invariant EntriesCopied(source.entries[..i], ownedEntries, seen.m)
    {
      var entry := CopyEntry(source, i, ownedEntries, seen, s, open + {source});
      if entry.Err? {
        return Err(entry.error);
      }
      ownedEntries := ownedEntries + [entry.value];
      i := i + 1;
    }
    assert source.entries[..i] == source.entries;
    FinishFacade(facade, ownedEntries, source, seen.m, s, open + {source});
    CloseImage(seen.m, s, open, source);
    return Ok(facade);
  }

  method SnapshotOwnedValue(value: Value, seen: Seen, ghost s: set<JsObject>, ghost open: set<JsObject>)
    returns (r: Result<Value, SnapshotError>)
    requires Closed(s) && Within(value, s)
    requires Consistent(seen.m, s, open)
    modifies seen
    ensures Extends(old(seen.m), seen.m)
    ensures forall o :: o in seen.m && o !in old(seen.m) ==> fresh(seen.m[o])
    ensures r.Ok? ==> Consistent(seen.m, s, open) && ValueCopied(value, r.value, seen.m)
    ensures value.Func? ==> r == Err(UnsupportedFunction)
    ensures r.Err? && !value.Func? ==> Explained(r.error, s)
    decreases s - seen.m.Keys, 2
  {
    if value.Func? {
      return Err(UnsupportedFunction);
    }
    if value.Prim? {
      return Ok(value);
    }
    var source := value.o;
    if source in seen.m {
      return Ok(Ref(seen.m[source]));
    }
    if source.kind == MapKind {
      var facade := SnapshotReadonlyMap(source, seen, s, open);
      if facade.Err? {
        return Err(facade.error);
      }
      return Ok(Ref(facade.value));
    }
    if source.kind == FacadeKind {
      return Err(UnsupportedFunction); // its own get, among others
    }
    if !SupportedKind(source.kind) {
      return Err(UnsupportedObject);
    }
    var target := CopyObject(source, seen, s, open);
    if target.Err? {
      return Err(target.error);
    }
    return Ok(Ref(target.value));
  }

  /** The copy of an array, a record or an error: open its image, copy its properties, freeze it. */
  method CopyObject(source: JsObject, seen: Seen, ghost s: set<JsObject>, ghost open: set<JsObject>)
    returns (r: Result<JsObject, SnapshotError>)
    requires source.kind != MapKind && SupportedKind(source.kind)
    requires source in s && source !in seen.m && Closed(s)
    requires Consistent(seen.m, s, open)
    modifies seen
    ensures Extends(old(seen.m), seen.m)
    ensures forall o :: o in seen.m && o !in old(seen.m) ==> fresh(seen.m[o])
    ensures r.Ok? ==> Consistent(seen.m, s, open) && source in seen.m && r.value == seen.m[source]
    ensures r.Err? ==> Explained(r.error, s)
    decreases s - seen.m.Keys, 1
  {
    var target := new JsObject(ImageKind(source.kind));
    OpenImage(seen.m, s, open, source, target);
    seen.m := seen.m[source := target];
    var i := 0;
    while i < |source.props|
      invariant 0 <= i <= |source.props|
      invariant fresh(target) && target.entries == []
      invariant source in seen.m && seen.m[source] == target
      invariant Extends(old(seen.m), seen.m)
      invariant forall o :: o in seen.m && o !in old(seen.m) ==> fresh(seen.m[o])
      invariant Consistent(seen.m, s, open + {source})
      invariant PropsCopied(source.props[..i], target.props, seen.m)
    {
      var failure := CopyProperty(source, i, target, seen, s, open + {source});
      if failure.Some? {
        return Err(failure.value);
      }
      i := i + 1;
    }
    assert source.props[..i] == source.props;
    FinishTarget(target, source, seen.m, s, open + {source});
    CloseImage(seen.m, s, open, source);
    return Ok(target);
  }

  /** One turn of the property loop. */
  method CopyProperty(source: JsObject, i: nat, target: JsObject, seen: Seen,
                      ghost s: set<JsObject>, ghost open: set<JsObject>)
    returns (failure: Option<SnapshotError>)
    requires source in open && !HasEntries(source.kind) && i < |source.props| && Closed(s)
    requires source in seen.m && seen.m[source] == target && Consistent(seen.m, s, open)
    requires PropsCopied(source.props[..i], target.props, seen.m)
    modifies seen, target
    ensures Extends(old(seen.m), seen.m)
    ensures forall o :: o in seen.m && o !in old(seen.m) ==> fresh(seen.m[o])
    ensures target.entries == old(target.entries)
    ensures failure.None? ==> Consistent(seen.m, s, open)
    ensures failure.None? ==> PropsCopied(source.props[..i + 1], target.props, seen.m)
    ensures failure.Some? ==> Explained(failure.value, s)
    decreases s - seen.m.Keys, 3
  {
    var property := source.props[i];
    ghost var before := seen.m;
    var owned := SnapshotOwnedValue(property.value, seen, s, open);
    if owned.Err? {
      return Some(owned.error);
    }
    PropertyCopied(source.props, i, target.props, owned.value, before, seen.m);
    DefineProperty(target, Property(property.key, owned.value, property.enumerable, true),
                   source, seen.m, s, open);
    return None;
  }

  /** One turn of the loop over a Map's entries. */
  method CopyEntry(source: JsObject, i: nat, ghost copied: seq<Entry>, seen: Seen,
                   ghost s: set<JsObject>, ghost open: set<JsObject>)
    returns (r: Result<Entry, SnapshotError>)
    requires source in s && source.kind == MapKind && i < |source.entries| && Closed(s)
    requires Consistent(seen.m, s, open) && EntriesCopied(source.entries[..i], copied, seen.m)
    modifies seen
    ensures Extends(old(seen.m), seen.m)
    ensures forall o :: o in seen.m && o !in old(seen.m) ==> fresh(seen.m[o])
    ensures r.Ok? ==> Consistent(seen.m, s, open)
    ensures r.Ok? ==> EntriesCopied(source.entries[..i + 1], copied + [r.value], seen.m)
    ensures r.Err? ==> Explained(r.error, s)
    decreases s - seen.m.Keys, 3
  {
    var entry := source.entries[i];
    ghost var before := seen.m;
    var key := SnapshotOwnedValue(entry.key, seen, s, open);
    if key.Err? {
      return Err(key.error);
    }
    ghost var between := seen.m;
    var value := SnapshotOwnedValue(entry.value, seen, s, open);
    if value.Err? {
      return Err(value.error);
    }
    ValueInLargerMemo(entry.key, key.value, between, seen.m);
    EntryCopied(source.entries, i, copied, key.value, value.value, before, seen.m);
    return Ok(Entry(key.value, value.value));
  }

  // ----- the whole outcome

  /** The parts of a command outcome that are copied, and its exit class. */
  datatype Outcome = Outcome(report: Value, diagnostics: Value, exitClass: string,
                             mutation: Value, deprecations: Value)

  ghost predicate OutcomeWithin(outcome: Outcome, s: set<JsObject>) {
    && Within(outcome.report, s) && Within(outcome.diagnostics, s)
    && Within(outcome.mutation, s) && Within(outcome.deprecations, s)
  }

  ghost predicate OutcomeCopied(outcome: Outcome, image: Outcome, m: map<JsObject, JsObject>) {
    && ValueCopied(outcome.report, image.report, m) && ValueCopied(outcome.diagnostics, image.diagnostics, m)
    && ValueCopied(outcome.mutation, image.mutation, m) && ValueCopied(outcome.deprecations, image.deprecations, m)
    && image.exitClass == outcome.exitClass
  }

  predicate FunctionFree(outcome: Outcome) {
    && !outcome.report.Func? && !outcome.diagnostics.Func?
    && !outcome.mutation.Func? && !outcome.deprecations.Func?
  }

  /** `s` is exactly what can be reached from the outcome: no smaller set is closed around it. */
  ghost predicate ReachableFrom(outcome: Outcome, s: set<JsObject>)
    reads s
  {
    && Closed(s) && OutcomeWithin(outcome, s)
    && forall t :: t <= s && Closed(t) && OutcomeWithin(outcome, t) ==> t == s
  }

  /** Within any closed set around an outcome there is what can be reached from it. */
  lemma {:induction false} SomethingReachable(outcome: Outcome, all: set<JsObject>) returns (s: set<JsObject>)
    requires Closed(all) && OutcomeWithin(outcome, all)
    ensures s <= all && ReachableFrom(outcome, s)
    decreases |all|
  {
    if t :| t < all && Closed(t) && OutcomeWithin(outcome, t) {
      assert |all| == |t| + |all - t| by { assert all == t + (all - t); }
      s := SomethingReachable(outcome, t);
    } else {
      s := all;
    }
  }

  /** `m` sends the objects of `s`, one to one, to finished frozen images. */
  ghost predicate Isomorphism(m: map<JsObject, JsObject>, s: set<JsObject>)
    reads s, m.Values
  {
    m.Keys == s && Injective(m) && forall o :: o in m ==> Copied(o, m[o], m)
  }

  /**
   Succeeds exactly when nothing reachable is a function or has an unsupported prototype, and
   then the whole reachable graph has one fresh frozen image, shared by the four parts.
   */
  method SnapshotOutcome(outcome: Outcome, ghost s: set<JsObject>)
    returns (r: Result<Outcome, SnapshotError>, ghost m: map<JsObject, JsObject>)
    requires ReachableFrom(outcome, s)
    ensures r.Ok? <==> Supported(s) && FunctionFree(outcome)
    ensures r.Err? ==> Explained(r.error, s) || (r.error.UnsupportedFunction? && !FunctionFree(outcome))
    ensures r.Ok? ==> Isomorphism(m, s) && OutcomeCopied(outcome, r.value, m)
    ensures r.Ok? ==> fresh(m.Values)
    // the same outright, by kind and part by part
    ensures r.Ok? <==> (forall o :: o in s ==> o.kind != OtherKind && o.kind != FacadeKind && !HoldsFunction(o))
                       && Func !in [outcome.report, outcome.diagnostics, outcome.mutation, outcome.deprecations]
    ensures r.Ok? ==> m.Keys == s && forall o :: o in s ==> m[o].frozen
    ensures r.Ok? ==> forall o :: o in s && o.kind.ErrorKind? ==> m[o].kind == ErrorKind("Error")
    ensures r.Ok? ==> forall o :: o in s && o.kind in {ArrayKind, RecordKind, NullRecordKind} ==> m[o].kind == o.kind
    ensures r.Ok? ==> forall o :: o in s && o.kind == MapKind ==> m[o].kind == FacadeKind
    ensures r.Ok? ==> r.value == Outcome(Image(outcome.report, m), Image(outcome.diagnostics, m), outcome.exitClass,
                                         Image(outcome.mutation, m), Image(outcome.deprecations, m))
  {
    r, m := CopyOutcome(outcome, s);
    SupportedTells(outcome, s);
    if r.Ok? {
      KindsOfImages(m, s);
    }
  }

  method CopyOutcome(outcome: Outcome, ghost s: set<JsObject>)
    returns (r: Result<Outcome, SnapshotError>, ghost m: map<JsObject, JsObject>)
    requires ReachableFrom(outcome, s)
    ensures r.Ok? <==> Supported(s) && FunctionFree(outcome)
    ensures r.Err? ==> Explained(r.error, s) || (r.error.UnsupportedFunction? && !FunctionFree(outcome))
    ensures r.Ok? ==> Isomorphism(m, s) && OutcomeCopied(outcome, r.value, m)
    ensures r.Ok? ==> fresh(m.Values)
  {
    var seen := new Seen();
    r := CopyParts(outcome, seen, s);
    m := seen.m;
    if r.Ok? {
      CopiedIsClosed(m, s);
      assert OutcomeWithin(outcome, m.Keys);
    } else {
      ExplainedTells(s);
    }
  }

  /** Two values copied one after the other with one memo. */
  method CopyPair(first: Value, second: Value, seen: Seen, ghost s: set<JsObject>)
    returns (r: Result<(Value, Value), SnapshotError>)
    requires Closed(s) && Within(first, s) && Within(second, s) && Consistent(seen.m, s, {})
    modifies seen
    ensures Extends(old(seen.m), seen.m) && forall o :: o in seen.m && o !in old(seen.m) ==> fresh(seen.m[o])
    ensures r.Ok? ==> Consistent(seen.m, s, {})
    ensures r.Ok? ==> ValueCopied(first, r.value.0, seen.m) && ValueCopied(second, r.value.1, seen.m)
    ensures r.Err? ==> Explained(r.error, s) || (r.error.UnsupportedFunction? && (first.Func? || second.Func?))
  {
    var a := SnapshotOwnedValue(first, seen, s, {});
    if a.Err? { return Err(a.error); }
    ghost var m := seen.m;
    var b := SnapshotOwnedValue(second, seen, s, {});
    if b.Err? { return Err(b.error); }
    ValueInLargerMemo(first, a.value, m, seen.m);
    return Ok((a.value, b.value));
  }

  method CopyParts(outcome: Outcome, seen: Seen, ghost s: set<JsObject>)
    returns (r: Result<Outcome, SnapshotError>)
    requires Closed(s) && OutcomeWithin(outcome, s) && seen.m == map[]
    modifies seen
    ensures forall o :: o in seen.m ==> fresh(seen.m[o])
    ensures r.Ok? ==> Consistent(seen.m, s, {}) && OutcomeCopied(outcome, r.value, seen.m)
    ensures r.Err? ==> Explained(r.error, s) || (r.error.UnsupportedFunction? && !FunctionFree(outcome))
  {
    var ahead := CopyPair(outcome.report, outcome.diagnostics, seen, s);
    if ahead.Err? { return Err(ahead.error); }
    ghost var m := seen.m;
    var behind := CopyPair(outcome.mutation, outcome.deprecations, seen, s);
    if behind.Err? { return Err(behind.error); }
    ValueInLargerMemo(outcome.report, ahead.value.0, m, seen.m);
    ValueInLargerMemo(outcome.diagnostics, ahead.value.1, m, seen.m);
    return Ok(Outcome(ahead.value.0, ahead.value.1, outcome.exitClass, behind.value.0, behind.value.1));
  }

  /** Once no object is open, the copied objects refer only to copied objects. */
  lemma CopiedIsClosed(m: map<JsObject, JsObject>, s: set<JsObject>)
    requires Consistent(m, s, {})
    ensures Closed(m.Keys) && Supported(m.Keys)
  {
  }

  /** What a value stands for once every object of the keys has its image. */
  ghost function Image(v: Value, m: map<JsObject, JsObject>): Value {
    if v.Ref? && v.o in m then Ref(m[v.o]) else v
  }

  /** An image, outright: what it takes over from its source, and what it does not. */
  lemma ImageTells(o: JsObject, m: map<JsObject, JsObject>, s: set<JsObject>)
    requires Isomorphism(m, s) && o in s
    ensures m[o].frozen && o.kind != OtherKind && o.kind != FacadeKind
    ensures o.kind.ErrorKind? ==> m[o].kind == ErrorKind("Error")
    ensures o.kind == MapKind ==> m[o].kind == FacadeKind
    ensures o.kind in {ArrayKind, RecordKind, NullRecordKind} ==> m[o].kind == o.kind
    ensures if o.kind == MapKind
            then
              && m[o].props == [] && m[o].length == |o.entries| == |m[o].entries|
              && forall i :: 0 <= i < |o.entries|
                   ==> m[o].entries[i] == Entry(Image(o.entries[i].key, m), Image(o.entries[i].value, m))
            else
              && m[o].entries == [] && |m[o].props| == |o.props|
              && forall i :: 0 <= i < |o.props|
                   ==> m[o].props[i] == Property(o.props[i].key, Image(o.props[i].value, m), o.props[i].enumerable, true)
    ensures o.kind == ArrayKind ==> m[o].length == o.length
    ensures forall p :: p in s && m[p] == m[o] ==> p == o
  {
  }

  lemma KindsOfImages(m: map<JsObject, JsObject>, s: set<JsObject>)
    requires Isomorphism(m, s)
    ensures m.Keys == s && forall o :: o in s ==> m[o].frozen
    ensures forall o :: o in s && o.kind.ErrorKind? ==> m[o].kind == ErrorKind("Error")
    ensures forall o :: o in s && o.kind in {ArrayKind, RecordKind, NullRecordKind} ==> m[o].kind == o.kind
    ensures forall o :: o in s && o.kind == MapKind ==> m[o].kind == FacadeKind
  {
    forall o | o in s
      ensures m[o].frozen
      ensures o.kind.ErrorKind? ==> m[o].kind == ErrorKind("Error")
      ensures o.kind in {ArrayKind, RecordKind, NullRecordKind} ==> m[o].kind == o.kind
      ensures o.kind == MapKind ==> m[o].kind == FacadeKind
    {
      ImageTells(o, m, s);
    }
  }

  /** What is supported, outright. */
  lemma SupportedTells(outcome: Outcome, s: set<JsObject>)
    ensures Supported(s) && FunctionFree(outcome)
            <==> (forall o :: o in s ==> o.kind != OtherKind && o.kind != FacadeKind && !HoldsFunction(o))
                 && Func !in [outcome.report, outcome.diagnostics, outcome.mutation, outcome.deprecations]
  {
    assert FunctionFree(outcome) <==>
           Func !in [outcome.report, outcome.diagnostics, outcome.mutation, outcome.deprecations];
    forall o | o in s
      ensures SupportedObject(o) <==> o.kind != OtherKind && o.kind != FacadeKind && !HoldsFunction(o)
    {
    }
  }

  lemma ExplainedTells(s: set<JsObject>)
    ensures Supported(s) ==> !Explained(UnsupportedFunction, s) && !Explained(UnsupportedObject, s)
  {
  }

  lemma ImageIsClosed(m: map<JsObject, JsObject>, s: set<JsObject>)
    requires Isomorphism(m, s)
    ensures Closed(m.Values)
  {
    forall c | c in m.Values
      ensures if HasEntries(c.kind)
              then forall i :: 0 <= i < |c.entries| ==> Within(c.entries[i].key, m.Values) && Within(c.entries[i].value, m.Values)
              else forall i :: 0 <= i < |c.props| ==> Within(c.props[i].value, m.Values)
    {
      var o :| o in m && m[o] == c;
      assert Copied(o, c, m);
    }
  }

  // ----- what a reader can see

  /** A value as it unfolds to a given depth. A Map and its facade look the same. */
  datatype Tree = Leaf(p: Primitive) | Callable | Cut
    | Node(kind: Kind, props: seq<(string, bool, Tree)>, length: nat, entries: seq<(Tree, Tree)>)

  ghost function Observe(v: Value, depth: nat, s: set<JsObject>): Tree
    requires Closed(s) && Within(v, s)
    reads s
    decreases depth, 1
  {
    match v
    case Prim(p) => Leaf(p)
    case Func => Callable
    case Ref(o) =>
      if depth == 0 then Cut
      else if HasEntries(o.kind) then Node(FacadeKind, [], |o.entries|, ObserveEntries(o, depth - 1, s))
      else Node(ImageKind(o.kind), ObserveProps(o, depth - 1, s), if o.kind == ArrayKind then o.length else 0, [])
  }

  ghost function ObserveEntries(o: JsObject, depth: nat, s: set<JsObject>): (r: seq<(Tree, Tree)>)
    requires Closed(s) && o in s && HasEntries(o.kind)
    reads s
    ensures |r| == |o.entries|
    ensures forall i :: 0 <= i < |r|
              ==> r[i] == (Observe(o.entries[i].key, depth, s), Observe(o.entries[i].value, depth, s))
    decreases depth, 2
  {
    seq(|o.entries|, i requires 0 <= i < |o.entries| && Closed(s) && o in s reads s =>
          (Observe(o.entries[i].key, depth, s), Observe(o.entries[i].value, depth, s)))
  }

  ghost function ObserveProps(o: JsObject, depth: nat, s: set<JsObject>): (r: seq<(string, bool, Tree)>)
    requires Closed(s) && o in s && !HasEntries(o.kind)
    reads s
    ensures |r| == |o.props|
    ensures forall i :: 0 <= i < |r|
              ==> r[i] == (o.props[i].key, o.props[i].enumerable, Observe(o.props[i].value, depth, s))
    decreases depth, 2
  {
    seq(|o.props|, i requires 0 <= i < |o.props| && Closed(s) && o in s reads s =>
          (o.props[i].key, o.props[i].enumerable, Observe(o.props[i].value, depth, s)))
  }

  lemma SameEntriesSameTree(o: JsObject, p: JsObject, depth: nat, s: set<JsObject>, t: set<JsObject>)
    requires Closed(s) && Closed(t) && o in s && p in t && HasEntries(o.kind) && HasEntries(p.kind)
    requires |o.entries| == |p.entries| && ObserveEntries(p, depth, t) == ObserveEntries(o, depth, s)
    ensures Observe(Ref(p), depth + 1, t) == Observe(Ref(o), depth + 1, s)
  {
  }

  lemma SamePropsSameTree(o: JsObject, p: JsObject, depth: nat, s: set<JsObject>, t: set<JsObject>)
    requires Closed(s) && Closed(t) && o in s && p in t && !HasEntries(o.kind) && !HasEntries(p.kind)
    requires p.kind == ImageKind(o.kind) && (o.kind == ArrayKind ==> p.length == o.length)
    requires ObserveProps(p, depth, t) == ObserveProps(o, depth, s)
    ensures Observe(Ref(p), depth + 1, t) == Observe(Ref(o), depth + 1, s)
  {
  }

  /** The image unfolds, to every depth, to what the source unfolds to. */
  lemma {:induction false} ImageLooksTheSame(v: Value, c: Value, depth: nat, m: map<JsObject, JsObject>,
                                             s: set<JsObject>)
    requires Isomorphism(m, s) && Closed(s) && Closed(m.Values)
    requires Within(v, s) && ValueCopied(v, c, m)
    ensures Within(c, m.Values) && Observe(c, depth, m.Values) == Observe(v, depth, s)
    decreases depth, 1
  {
    match v
    case Prim(_) =>
    case Ref(o) =>
      assert c == Ref(m[o]) && m[o] in m.Values;
      if depth > 0 {
        if HasEntries(o.kind) {
          EntriesLookTheSame(o, m[o], depth - 1, m, s);
        } else {
          PropsLookTheSame(o, m[o], depth - 1, m, s);
        }
      }
  }

  lemma {:induction false} EntriesLookTheSame(o: JsObject, p: JsObject, depth: nat, m: map<JsObject, JsObject>,
                                              s: set<JsObject>)
    requires Isomorphism(m, s) && Closed(s) && Closed(m.Values)
    requires o in s && m[o] == p && HasEntries(o.kind)
    ensures p in m.Values && Observe(Ref(p), depth + 1, m.Values) == Observe(Ref(o), depth + 1, s)
    decreases depth, 2
  {
    assert Copied(o, p, m);
    forall i | 0 <= i < |o.entries|
      ensures ObserveEntries(p, depth, m.Values)[i] == ObserveEntries(o, depth, s)[i]
    {
      ImageLooksTheSame(o.entries[i].key, p.entries[i].key, depth, m, s);
      ImageLooksTheSame(o.entries[i].value, p.entries[i].value, depth, m, s);
    }
    SameEntriesSameTree(o, p, depth, s, m.Values);
  }

  lemma {:induction false} PropsLookTheSame(o: JsObject, p: JsObject, depth: nat, m: map<JsObject, JsObject>,
                                            s: set<JsObject>)
    requires Isomorphism(m, s) && Closed(s) && Closed(m.Values)
    requires o in s && m[o] == p && !HasEntries(o.kind)
    ensures p in m.Values && Observe(Ref(p), depth + 1, m.Values) == Observe(Ref(o), depth + 1, s)
    decreases depth, 2
  {
    assert Copied(o, p, m);
    forall i | 0 <= i < |o.props|
      ensures ObserveProps(p, depth, m.Values)[i] == ObserveProps(o, depth, s)[i]
    {
      ImageLooksTheSame(o.props[i].value, p.props[i].value, depth, m, s);
    }
    SamePropsSameTree(o, p, depth, s, m.Values);
  }

  // ----- later writes

  /** An attempt to give an object other properties, entries and length. */
  datatype Write = Write(target: JsObject, props: seq<Property>, length: nat, entries: seq<Entry>)

  function Targets(writes: seq<Write>): set<JsObject> {
    set w <- writes :: w.target
  }

  /** Whoever writes, in whatever order: a frozen object stays as it is. */
  method WriteAll(writes: seq<Write>)
    modifies Targets(writes)
    ensures forall o :: o in Targets(writes) && old(o.frozen) ==> unchanged(o)
  {
    for i := 0 to |writes|
      invariant forall o :: o in Targets(writes) ==> o.frozen == old(o.frozen)
      invariant forall o :: o in Targets(writes) && old(o.frozen) ==> unchanged(o)
    {
      var w := writes[i];
      assert w in writes && w.target in Targets(writes);
      if !w.target.frozen {
        w.target.props, w.target.length, w.target.entries := w.props, w.length, w.entries;
      }
    }
  }

  /** No write, to the source, to an image or elsewhere, changes what an image shows. */
  method WriteLater(writes: seq<Write>, ghost c: Value, ghost depth: nat, ghost m: map<JsObject, JsObject>,
                    ghost s: set<JsObject>)
    requires Isomorphism(m, s) && Closed(m.Values) && Within(c, m.Values)
    modifies Targets(writes)
    ensures Closed(m.Values) && Observe(c, depth, m.Values) == old(Observe(c, depth, m.Values))
  {
    forall x | x in m.Values
      ensures x.frozen
    {
      var o :| o in m && m[o] == x;
      assert Copied(o, x, m);
    }
    WriteAll(writes);
    assert forall x :: x in m.Values ==> unchanged(x);
  }

  /** The four parts of an outcome as they unfold to a given depth. */
  ghost function ObserveParts(outcome: Outcome, depth: nat, s: set<JsObject>): seq<Tree>
    requires Closed(s) && OutcomeWithin(outcome, s)
    reads s
  {
    [Observe(outcome.report, depth, s), Observe(outcome.diagnostics, depth, s),
     Observe(outcome.mutation, depth, s), Observe(outcome.deprecations, depth, s)]
  }

  lemma PartsLookTheSame(outcome: Outcome, image: Outcome, depth: nat, m: map<JsObject, JsObject>, s: set<JsObject>)
    requires Isomorphism(m, s) && Closed(s) && OutcomeWithin(outcome, s) && OutcomeCopied(outcome, image, m)
    ensures Closed(m.Values) && OutcomeWithin(image, m.Values)
    ensures ObserveParts(image, depth, m.Values) == ObserveParts(outcome, depth, s)
  {
    ImageIsClosed(m, s);
    ImageLooksTheSame(outcome.report, image.report, depth, m, s);
    ImageLooksTheSame(outcome.diagnostics, image.diagnostics, depth, m, s);
    ImageLooksTheSame(outcome.mutation, image.mutation, depth, m, s);
    ImageLooksTheSame(outcome.deprecations, image.deprecations, depth, m, s);
  }

  /**
   A snapshot, and then any writes to objects that were there before: every part still looks, to
   every depth, as its source did when the snapshot was taken.
   */
  method SnapshotThenWrites(outcome: Outcome, writes: seq<Write>, ghost depth: nat, ghost s: set<JsObject>)
    returns (r: Result<Outcome, SnapshotError>, ghost m: map<JsObject, JsObject>)
    requires ReachableFrom(outcome, s)
    modifies Targets(writes)
    ensures r.Ok? <==> old(Supported(s)) && FunctionFree(outcome)
    ensures r.Ok? ==> fresh(m.Values) && r.value.exitClass == outcome.exitClass
    ensures r.Ok? ==> Closed(m.Values) && OutcomeWithin(r.value, m.Values)
    ensures r.Ok? ==> ObserveParts(r.value, depth, m.Values) == old(ObserveParts(outcome, depth, s))
  {
    r, m := SnapshotOutcome(outcome, s);
    if r.Ok? {
      PartsLookTheSame(outcome, r.value, depth, m, s);
    }
    WriteAll(writes);
  }

  // ----- reading a facade

  /** The facade's get: the value of the first entry with an equal key. */
  function FacadeGet(entries: seq<Entry>, key: Value): (r: Option<Value>)
    ensures r == None <==> forall i :: 0 <= i < |entries| ==> entries[i].key != key
    ensures r.Some? ==> exists i :: 0 <= i < |entries| && entries[i] == Entry(key, r.value)
                                    && forall j :: 0 <= j < i ==> entries[j].key != key
  {
    if entries == [] then None
    else if entries[0].key == key then Some(entries[0].value)
    else FacadeGet(entries[1..], key)
  }

  /** Looking up the image of a key finds the image of what the source finds, or nothing. */
  lemma {:induction false} FacadeGetMatches(es: seq<Entry>, cs: seq<Entry>, key: Value, image: Value,
                                            m: map<JsObject, JsObject>)
    requires Injective(m) && EntriesCopied(es, cs, m) && ValueCopied(key, image, m)
    ensures match FacadeGet(es, key)
            case None => FacadeGet(cs, image) == None
            case Some(v) => FacadeGet(cs, image).Some? && ValueCopied(v, FacadeGet(cs, image).value, m)
  {
    if es != [] {
      assert es[0].key == key <==> cs[0].key == image;
      FacadeGetMatches(es[1..], cs[1..], key, image, m);
    }
  }
}
