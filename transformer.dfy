/** The Transformer builder: a selector, a destination node set and the list
    of steps added by the builder methods; `apply` runs each step on what the
    selector selects from the destination at that moment. */
module Transform {
  import opened Wrappers
  import opened JsonAst
  import opened NodeOps
  import opened Selection
  import opened Steps
  import opened NodeHeap
  import opened NodeSets
  import opened StepMethods

  /** One transformation function, with the arguments its constructor keeps. */
  datatype Step =
    | Rename(from: Option<string>, to: Option<string>)
    | MoveTo(moveQuery: Query)
    | MergeWith(mergeQuery: Query, mergeFunction: Option<MergeFunctions>)
    | Delete(name: Option<string>, index: int)
    | Manipulate(childIndex: int, childName: Option<string>, valueFunction: Option<ValueFunction>, closure: Option<ValueFunction>)
    | Add(addName: Option<string>, kind: JsonType, value: AddedValue)
    | Partition(entries: seq<(string, seq<string>)>)

  /** A prebuilt node the step adopts is a node of a store of size `n`. */
  predicate StepFits(step: Step, n: nat) {
    step.Add? && step.value.Prebuilt? ==> step.value.node < n
  }

  predicate StepsFit(steps: seq<Step>, n: nat) {
    forall i | 0 <= i < |steps| :: StepFits(steps[i], n)
  }

  /** `function.apply(document, root)` for a null or non-null node set `root`:
      what it does to the store and whether it throws. A null node set makes
      every step throw NullPointerException, except a Deleter with neither a
      name nor an index, which does nothing, and an AddValue, which builds its
      child first. Mover and Merger also throw on a null document. */
  function StepEffect(s: Store, doc: Option<seq<Ref>>, root: Option<Nodes>, step: Step): (r: Effect)
    requires WellFormed(s) && OptionIn(root, |s|) && (doc.Some? ==> AllBelow(doc.value, |s|)) && StepFits(step, |s|)
    ensures WellFormed(r.store) && |s| <= |r.store|
  {
    match step
    case Rename(from, to) =>
      if root.None? then Effect(s, Throws(NullPointer))
      else
        var r := RenameRoots(s, root.value, root.value.roots, from, to);
        Effect(r.store, r.outcome)
    case MoveTo(q) =>
      if doc.None? || root.None? then Effect(s, Throws(NullPointer))
      else Move(s, doc.value, root.value.roots, q)
    case MergeWith(q, fn) =>
      if doc.None? || root.None? then Effect(s, Throws(NullPointer))
      else Merge(s, doc.value, root.value.roots, q, fn)
    case Delete(name, index) =>
      if root.None? then
        Effect(s, if (name.Some? && |name.value| > 0) || index >= 0 then Throws(NullPointer) else Normal)
      else
        var r := DeleteRoots(s, root.value, root.value.roots, name, index);
        Effect(r.store, r.outcome)
    case Manipulate(childIndex, childName, fn, closure) =>
      if root.None? then Effect(s, Throws(NullPointer))
      else ManipulateRoots(s, root.value.roots, childIndex, childName, fn, closure)
    case Add(name, t, value) =>
      if root.None? then Effect(NewChild(s, name, t, value).0, Throws(NullPointer))
      else
        var r := AddValueTo(s, root.value, name, t, value);
        Effect(r.store, r.outcome)
    case Partition(entries) =>
      if root.None? then Effect(s, Throws(NullPointer))
      else
        var r := PartitionRoots(s, root.value, root.value.roots, entries);
        Effect(r.store, r.outcome)
  }

  /** One round of `Transformer.apply`'s loop: the selector is run on the
      destination `x` (which may repair its cache), and the step gets the
      destination's document and the selection. The result holds the store,
      the destination, and the outcome. */
  function RunOne(s: Store, x: Nodes, q: Query, step: Step): (r: StepResult)
    requires WellFormed(s) && NodesIn(x, |s|) && StepFits(step, |s|)
    ensures WellFormed(r.store) && |s| <= |r.store| && NodesIn(r.root, |r.store|)
  {
    match Select(s, x, q)
    case Failure(e) => StepResult(s, x, Throws(e))
    case Success((sel, x1)) =>
      var e := StepEffect(s, x.document, sel, step);
      NodesInGrows(x1, |s|, |e.store|);
      StepResult(e.store, x1, e.outcome)
  }

  /** The loop of `Transformer.apply` from the step `steps[0]` on, one round
      per step; the first throw ends the loop. */
  function RunSteps(s: Store, x: Nodes, q: Query, steps: seq<Step>): (r: StepResult)
    requires WellFormed(s) && NodesIn(x, |s|) && StepsFit(steps, |s|)
    ensures WellFormed(r.store) && |s| <= |r.store| && NodesIn(r.root, |r.store|)
    decreases |steps|
  {
    if steps == [] then StepResult(s, x, Normal)
    else
      var r := RunOne(s, x, q, steps[0]);
      if r.outcome.Throws? then r
      else
        assert forall i | 0 <= i < |steps[1..]| :: steps[1..][i] == steps[i + 1];
        RunSteps(r.store, r.root, q, steps[1..])
  }

  /** Running two lists of steps one after the other is running their
      concatenation: the second list starts from where the first one ended,
      unless the first one threw. */
  lemma {:induction false} RunStepsAppend(s: Store, x: Nodes, q: Query, a: seq<Step>, b: seq<Step>)
    requires WellFormed(s) && NodesIn(x, |s|) && StepsFit(a + b, |s|)
    ensures StepsFit(a, |s|) && StepsFit(b, |s|)
    ensures var r := RunSteps(s, x, q, a);
      StepsFit(b, |r.store|)
      && RunSteps(s, x, q, a + b) == if r.outcome.Throws? then r else RunSteps(r.store, r.root, q, b)
    decreases |a|
  {
    assert forall i | 0 <= i < |a| :: (a + b)[i] == a[i];
    assert forall i | 0 <= i < |b| :: (a + b)[|a| + i] == b[i];
    if a == [] {
      assert a + b == b;
    } else {
      assert (a + b)[1..] == a[1..] + b;
      var r := RunOne(s, x, q, a[0]);
      if r.outcome.Normal? {
        RunStepsAppend(r.store, r.root, q, a[1..], b);
      }
    }
  }

  /** A selector that does not parse makes the first step throw
      IllegalArgumentException before anything changes; with no steps
      nothing is selected at all. */
  lemma UnparsableSelectorChangesNothing(s: Store, x: Nodes, steps: seq<Step>)
    requires WellFormed(s) && NodesIn(x, |s|) && StepsFit(steps, |s|)
    ensures RunSteps(s, x, Unparsable, steps)
         == StepResult(s, x, if steps == [] then Normal else Throws(IllegalArgument))
  {
  }

  /** A step run with a node set that is not caching leaves that node set as
      it was; Manipulator, Mover and Merger never touch it. */
  method RunStep(h: Heap, doc: Option<seq<Ref>>, root: JsonNodes?, step: Step) returns (o: Outcome)
    requires h.Valid() && (root != null ==> NodesIn(root.Value(), |h.nodes|))
    requires (doc.Some? ==> AllBelow(doc.value, |h.nodes|)) && StepFits(step, |h.nodes|)
    modifies h, root
    ensures h.Valid()
    ensures Effect(h.nodes, o) == StepEffect(old(h.nodes), doc, if root == null then None else Some(old(root.Value())), step)
    ensures root != null && !root.caching ==> root.Value() == old(root.Value())
  {
    match step {
      case Rename(from, to) =>
        o := ApplyRenamer(h, root, from, to);
      case MoveTo(q) =>
        o := ApplyMover(h, doc, root, q);
      case MergeWith(q, fn) =>
        o := ApplyMerger(h, doc, root, q, fn);
      case Delete(name, index) =>
        o := ApplyDeleter(h, root, name, index);
      case Manipulate(childIndex, childName, fn, closure) =>
        o := ApplyManipulator(h, root, childIndex, childName, fn, closure);
      case Add(name, t, value) =>
        o := ApplyAddValue(h, root, name, t, value);
      case Partition(entries) =>
        o := ApplyPartitioner(h, root, entries);
    }
  }

  /** `Transformer`: the selector and destination are fixed at construction;
      the builder methods append steps. */
  class Transformer {
    const selector: Query
    const destination: JsonNodes?
    var functions: seq<Step>

    constructor (selector: Query, destination: JsonNodes?)
      ensures this.selector == selector && this.destination == destination && functions == []
    {
      this.selector := selector;
      this.destination := destination;
      functions := [];
    }

    /** `renameTo(newName)`: a Renamer of the selected nodes themselves. */
    method RenameTo(newName: Option<string>)
      modifies this
      ensures functions == old(functions) + [Rename(None, newName)]
    {
      functions := functions + [Rename(None, newName)];
    }

    /** `renameChild(from, to)`. */
    method RenameChild(from: Option<string>, to: Option<string>)
      modifies this
      ensures functions == old(functions) + [Rename(from, to)]
    {
      functions := functions + [Rename(from, to)];
    }

    /** `moveTo(selector)`. */
    method MoveTo(q: Query)
      modifies this
      ensures functions == old(functions) + [Step.MoveTo(q)]
    {
      functions := functions + [Step.MoveTo(q)];
    }

    /** `merge(selector)` (no function) and `merge(selector, function)`. */
    method Merge(q: Query, fn: Option<MergeFunctions>)
      modifies this
      ensures functions == old(functions) + [MergeWith(q, fn)]
    {
      functions := functions + [MergeWith(q, fn)];
    }

    /** `deleteChild(childName)`: a Deleter by name, whose index stays -1. */
    method DeleteChild(childName: Option<string>)
      modifies this
      ensures functions == old(functions) + [Delete(childName, -1)]
    {
      functions := functions + [Delete(childName, -1)];
    }

    /** `deleteChild(index)`: a Deleter by index, without a name. */
    method DeleteChildAt(index: int)
      modifies this
      ensures functions == old(functions) + [Delete(None, index)]
    {
      functions := functions + [Delete(None, index)];
    }

    /** `manipulateValue(function)`, on the selected nodes themselves. */
    method ManipulateValue(fn: Option<ValueFunction>)
      modifies this
      ensures functions == old(functions) + [Manipulate(-1, None, fn, None)]
    {
      functions := functions + [Manipulate(-1, None, fn, None)];
    }

    /** `manipulateValue(childIndex, function)`. */
    method ManipulateValueAt(childIndex: int, fn: Option<ValueFunction>)
      modifies this
      ensures functions == old(functions) + [Manipulate(childIndex, None, fn, None)]
    {
      functions := functions + [Manipulate(childIndex, None, fn, None)];
    }

    /** `manipulateValue(childName, function)`. */
    method ManipulateValueNamed(childName: Option<string>, fn: Option<ValueFunction>)
      modifies this
      ensures functions == old(functions) + [Manipulate(-1, childName, fn, None)]
    {
      functions := functions + [Manipulate(-1, childName, fn, None)];
    }

    /** `add(name, type)` and `add(name, type, value)`: a null type means a
        value node. */
    method AddTyped(name: Option<string>, t: Option<JsonType>, value: AddedValue)
      modifies this
      ensures functions == old(functions) + [Add(name, if t.Some? then t.value else JsonType.Value, value)]
    {
      var kind := if t.Some? then t.value else JsonType.Value;
      functions := functions + [Add(name, kind, value)];
    }

    /** `addJson(name, jsonString)`, given the roots of the parsed document:
        none adds nothing; otherwise the first root is adopted verbatim, with
        its own type. */
    method AddJson(h: Heap, name: Option<string>, parsed: seq<Ref>)
      requires AllBelow(parsed, |h.nodes|)
      modifies this
      ensures parsed == [] ==> functions == old(functions)
      ensures parsed != [] ==> functions == old(functions) + [Add(name, TypeOf(h.nodes[parsed[0]]), Prebuilt(parsed[0]))]
    {
      if parsed == [] {
        return;
      }
      var root := parsed[0];
      functions := functions + [Add(name, TypeOf(h.nodes[root]), Prebuilt(root))];
    }

    /** `addValue(value)`: an unnamed value node. */
    method AddValue(value: AddedValue)
      modifies this
      ensures functions == old(functions) + [Add(None, JsonType.Value, value)]
    {
      functions := functions + [Add(None, JsonType.Value, value)];
    }

    /** `add(name, value)`: a named value node. */
    method AddNamed(name: Option<string>, value: AddedValue)
      modifies this
      ensures functions == old(functions) + [Add(name, JsonType.Value, value)]
    {
      functions := functions + [Add(name, JsonType.Value, value)];
    }

    /** `partition(partitions)`, with the Partitioner's map built from the
        groups. */
    method Partition(groups: seq<seq<string>>)
      modifies this
      ensures functions == old(functions) + [Step.Partition(PartitionKeysFrom([], groups))]
    {
      var entries := PartitionKeys(groups);
      functions := functions + [Step.Partition(entries)];
    }

    /** `apply()`: with a null destination nothing happens and null is
        returned; otherwise each step runs on a fresh selection from the
        destination, and the destination is returned. A step that throws ends
        `apply` with its exception. */
    method Apply(h: Heap) returns (r: Result<JsonNodes?>)
      requires h.Valid() && StepsFit(functions, |h.nodes|)
      requires destination != null ==> NodesIn(destination.Value(), |h.nodes|)
      modifies h, destination
      ensures h.Valid()
      ensures destination == null ==> r == Success(null) && h.nodes == old(h.nodes)
      ensures destination != null ==>
        var spec := RunSteps(old(h.nodes), old(destination.Value()), selector, functions);
        && h.nodes == spec.store
        && (r.Success? <==> spec.outcome.Normal?)
        && (r.Success? ==> r.value == destination && destination.Value() == spec.root)
        && (r.Failure? ==> spec.outcome == Throws(r.error))
    {
      if destination == null {
        return Success(null);
      }
      var steps := functions;
      var i := 0;
      while i < |steps|
        invariant 0 <= i <= |steps| && h.Valid() && |old(h.nodes)| <= |h.nodes|
        invariant NodesIn(destination.Value(), |h.nodes|) && StepsFit(steps[i..], |h.nodes|)
        invariant RunSteps(old(h.nodes), old(destination.Value()), selector, steps)
               == RunSteps(h.nodes, destination.Value(), selector, steps[i..])
      {
        assert steps[i..][0] == steps[i] && steps[i..][1..] == steps[i + 1..];
        var o := ApplyStep(h, steps[i]);
        if o.Throws? {
          return Failure(o.error);
        }
        i := i + 1;
      }
      return Success(destination);
    }

    /** One round of `apply`'s loop: a fresh selection from the destination,
        then `step` on it. */
    method ApplyStep(h: Heap, step: Step) returns (o: Outcome)
      requires destination != null && h.Valid() && NodesIn(destination.Value(), |h.nodes|)
      requires StepFits(step, |h.nodes|)
      modifies h, destination
      ensures h.Valid()
      ensures var spec := RunOne(old(h.nodes), old(destination.Value()), selector, step);
        && h.nodes == spec.store && o == spec.outcome
        && (o.Normal? ==> destination.Value() == spec.root)
    {
      var doc := destination.document;
      var selected := destination.Select(h, selector);
      if selected.Failure? {
        return Throws(selected.error);
      }
      o := RunStep(h, doc, selected.value, step);
    }
  }
}
