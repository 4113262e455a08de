/**
 * The JSON builder (transport-catalogue/json_builder.h, json_builder.cpp):
 * a stack machine that assembles a Node from a chain of calls.  The stack
 * holds the open containers and, directly above an open dict, the pending
 * key as a string node; a finished value goes into the container on top of
 * the stack, or becomes the root when the stack is empty.  A call that
 * throws logic_error is modelled as a call that reports failure; the state
 * it leaves is the state the source leaves at the throw.
 *
 * The context classes (KeyContext, DictContext, ArrayContext) only restrict
 * which calls may be chained; they are modelled as a Context value with the
 * calls each one declares.
 */
module JsonBuilder {
  import opened Json

  /** The builder's fields: root_ (Null until a top-level value is added) and nodes_stack_. */
  datatype Frame = Frame(root: Node, stack: seq<Node>)

  /** What a call leaves behind: whether it returned normally (false: logic_error) and the state. */
  datatype Outcome = Outcome(ok: bool, after: Frame)

  /**
   * The shape every reachable stack has: it holds only open containers and
   * pending keys, and a pending key sits directly above an open dict.
   */
  predicate WellStacked(stack: seq<Node>) {
    && (forall k :: 0 <= k < |stack| ==> stack[k].Array? || stack[k].Dict? || stack[k].String?)
    && (|stack| > 0 ==> !stack[0].String?)
    && (forall k :: 0 < k < |stack| && stack[k].String? ==> stack[k - 1].Dict?)
  }

  lemma WellStackedPrefix(stack: seq<Node>, n: nat)
    requires WellStacked(stack) && n <= |stack|
    ensures WellStacked(stack[..n])
  {
    assert forall k :: 0 <= k < n ==> stack[..n][k] == stack[k];
  }

  /** A pending key on top has an open dict directly below it. */
  lemma KeyAboveDict(stack: seq<Node>)
    requires WellStacked(stack) && stack != [] && stack[|stack| - 1].String?
    ensures |stack| >= 2 && stack[|stack| - 2].Dict?
  {
  }

  /**
   * AddNode: with an empty stack the node becomes the root, unless a root
   * was already added; on an open array it is appended; on a pending key it
   * is inserted under that key into the dict below, which keeps an existing
   * entry (std::map::emplace); on anything else it is refused.
   */
  function Added(f: Frame, node: Node): Outcome
    requires WellStacked(f.stack)
  {
    if f.stack == [] then
      if !IsNull(f.root) then Outcome(false, f) else Outcome(true, Frame(node, []))
    else
      var top := f.stack[|f.stack| - 1];
      var below := f.stack[..|f.stack| - 1];
      if !IsArray(top) && !IsString(top) then Outcome(false, f)
      else if IsArray(top) then Outcome(true, Frame(f.root, below + [Array(top.items + [node])]))
      else
        KeyAboveDict(f.stack);
        var parent := below[|below| - 1];
        var entries := if top.s in parent.entries then parent.entries else parent.entries[top.s := node];
        Outcome(true, Frame(f.root, below[..|below| - 1] + [Dict(entries)]))
  }

  /** Key: refused on an empty stack; pushes the key above an open dict and does nothing otherwise. */
  function Keyed(f: Frame, key: string): Outcome {
    if f.stack == [] then Outcome(false, f)
    else if IsMap(f.stack[|f.stack| - 1]) then Outcome(true, Frame(f.root, f.stack + [String(key)]))
    else Outcome(true, f)
  }

  /** StartDict / StartArray: pushes an empty container. */
  function Started(f: Frame, container: Node): Frame {
    Frame(f.root, f.stack + [container])
  }

  /**
   * EndDict (dict) / EndArray (!dict): refused on an empty stack or when the
   * top is not a container of that kind; otherwise pops the container and
   * adds it to what is below, as AddNode does.
   */
  function Ended(f: Frame, dict: bool): Outcome
    requires WellStacked(f.stack)
  {
    if f.stack == [] then Outcome(false, f)
    else
      var top := f.stack[|f.stack| - 1];
      if (dict && !IsMap(top)) || (!dict && !IsArray(top)) then Outcome(false, f)
      else
        WellStackedPrefix(f.stack, |f.stack| - 1);
        Added(Frame(f.root, f.stack[..|f.stack| - 1]), top)
  }

  /** Build: the root, once a non-null root was added and every container is closed. */
  function Built(f: Frame): (r: Result<Node>)
    ensures r.Ok? <==> !f.root.Null? && f.stack == []
    ensures r.Ok? ==> r.value == f.root
    ensures r.Fail? ==> r.failure == LogicError
  {
    if IsNull(f.root) then Fail(LogicError)
    else if f.stack != [] then Fail(LogicError)
    else Ok(f.root)
  }

  // ---------------------------------------------------------------------------
  // The calls a chain can make, and the typestate of json_builder.h.

  datatype Call =
    | KeyCall(key: string)
    | ValueCall(value: Node)
    | StartDictCall
    | StartArrayCall
    | EndDictCall
    | EndArrayCall

  /** One builder call on a state. */
  function Step(f: Frame, call: Call): Outcome
    requires WellStacked(f.stack)
  {
    match call
    case KeyCall(key) => Keyed(f, key)
    case ValueCall(value) => Added(f, value)
    case StartDictCall => Outcome(true, Started(f, Dict(map[])))
    case StartArrayCall => Outcome(true, Started(f, Array([])))
    case EndDictCall => Ended(f, true)
    case EndArrayCall => Ended(f, false)
  }

  /** The object a call returns: the Builder itself, or one of the three context classes. */
  datatype Context = BuilderContext | KeyContext | DictContext | ArrayContext

  /**
   * The calls each context declares: KeyContext deletes Key, EndDict and
   * EndArray; DictContext deletes Value, StartDict, StartArray and EndArray;
   * ArrayContext deletes Key and EndDict.
   */
  predicate Allowed(ctx: Context, call: Call) {
    match ctx
    case BuilderContext => true
    case KeyContext => !call.KeyCall? && !call.EndDictCall? && !call.EndArrayCall?
    case DictContext => call.KeyCall? || call.EndDictCall?
    case ArrayContext => !call.KeyCall? && !call.EndDictCall?
  }

  /**
   * The context a call returns: Key a KeyContext, StartDict a DictContext,
   * StartArray an ArrayContext, Value after a key a DictContext and inside
   * an array an ArrayContext, everything else the Builder.
   */
  function Next(ctx: Context, call: Call): Context {
    match call
    case KeyCall(_) => KeyContext
    case StartDictCall => DictContext
    case StartArrayCall => ArrayContext
    case ValueCall(_) =>
      if ctx == KeyContext then DictContext
      else if ctx == ArrayContext then ArrayContext
      else BuilderContext
    case _ => BuilderContext
  }

  /** The stack top a context stands for: a pending key, an open dict, an open array. */
  predicate Matches(ctx: Context, f: Frame) {
    match ctx
    case BuilderContext => true
    case KeyContext => f.stack != [] && f.stack[|f.stack| - 1].String?
    case DictContext => f.stack != [] && f.stack[|f.stack| - 1].Dict?
    case ArrayContext => f.stack != [] && f.stack[|f.stack| - 1].Array?
  }

  // ---------------------------------------------------------------------------
  // Properties of the calls.

  /** Every call keeps the stack well-shaped, whether it returns or throws. */
  lemma StepKeepsShape(f: Frame, call: Call)
    requires WellStacked(f.stack)
    ensures WellStacked(Step(f, call).after.stack)
  {
    var s := f.stack;
    match call
    case KeyCall(key) =>
      if s != [] && IsMap(s[|s| - 1]) {
        StackPush(s, String(key));
      }
    case ValueCall(value) =>
      AddedKeepsShape(f, value);
    case StartDictCall =>
      StackPush(s, Dict(map[]));
    case StartArrayCall =>
      StackPush(s, Array([]));
    case EndDictCall =>
      EndedKeepsShape(f, true);
    case EndArrayCall =>
      EndedKeepsShape(f, false);
  }

  lemma StackPush(s: seq<Node>, n: Node)
    requires WellStacked(s)
    requires n.Array? || n.Dict? || (n.String? && s != [] && s[|s| - 1].Dict?)
    ensures WellStacked(s + [n])
  {
    assert forall k :: 0 <= k < |s| ==> (s + [n])[k] == s[k];
  }

  lemma AddedKeepsShape(f: Frame, node: Node)
    requires WellStacked(f.stack)
    ensures WellStacked(Added(f, node).after.stack)
  {
    var s := f.stack;
    if s != [] {
      var below := s[..|s| - 1];
      WellStackedPrefix(s, |s| - 1);
      if IsArray(s[|s| - 1]) {
        StackPush(below, Array(s[|s| - 1].items + [node]));
      } else if IsString(s[|s| - 1]) {
        KeyAboveDict(s);
        var rest := below[..|below| - 1];
        WellStackedPrefix(below, |below| - 1);
        StackPush(rest, Dict(map[]));
        var r := Added(f, node).after.stack;
        assert |r| == |below| && r[..|rest|] == rest && r[|rest|].Dict?;
        assert forall k :: 0 <= k < |rest| ==> r[k] == rest[k];
      }
    }
  }

  lemma EndedKeepsShape(f: Frame, dict: bool)
    requires WellStacked(f.stack)
    ensures WellStacked(Ended(f, dict).after.stack)
  {
    var s := f.stack;
    if s != [] {
      WellStackedPrefix(s, |s| - 1);
      AddedKeepsShape(Frame(f.root, s[..|s| - 1]), s[|s| - 1]);
    }
  }

  /** With the stack empty, a value becomes the root exactly when no root was added before. */
  lemma RootOnce(root: Node, node: Node)
    ensures Added(Frame(root, []), node).ok <==> root.Null?
    ensures Added(Frame(root, []), node).after.root == if root.Null? then node else root
  {
  }

  /** A second non-null top-level value throws and leaves the first one as the root. */
  lemma SecondRootThrows(first: Node, second: Node)
    requires !first.Null?
    ensures var once := Added(Frame(Null, []), first);
            once.ok && !Added(once.after, second).ok && Added(once.after, second).after.root == first
  {
  }

  /** A value added while an array is open goes to the end of that array; nothing else changes. */
  lemma ValueAppends(root: Node, below: seq<Node>, items: seq<Node>, node: Node)
    requires WellStacked(below + [Array(items)])
    ensures Added(Frame(root, below + [Array(items)]), node) == Outcome(true, Frame(root, below + [Array(items + [node])]))
  {
    assert (below + [Array(items)])[..|below|] == below;
  }

  /** A value added to an open dict without a pending key throws and changes nothing. */
  lemma ValueInDictThrows(f: Frame, node: Node)
    requires WellStacked(f.stack) && f.stack != [] && f.stack[|f.stack| - 1].Dict?
    ensures Added(f, node) == Outcome(false, f)
  {
  }

  /**
   * Key(k) then a value on an open dict inserts k -> value into that dict, unless
   * the dict already holds k, in which case the first value stays.
   */
  lemma KeyThenValue(root: Node, below: seq<Node>, entries: map<string, Node>, key: string, node: Node)
    requires WellStacked(below + [Dict(entries)])
    ensures var keyed := Keyed(Frame(root, below + [Dict(entries)]), key);
            && keyed.ok
            && WellStacked(keyed.after.stack)
            && Added(keyed.after, node) ==
                 Outcome(true, Frame(root, below + [Dict(if key in entries then entries else entries[key := node])]))
  {
    var s := below + [Dict(entries)];
    StackPush(s, String(key));
    var t := s + [String(key)];
    assert t[..|t| - 1] == s;
    assert s[..|s| - 1] == below;
  }

  /** Key throws on an empty stack, and pushes nothing unless the top is an open dict. */
  lemma KeyNeedsDict(f: Frame, key: string)
    ensures f.stack == [] ==> Keyed(f, key) == Outcome(false, f)
    ensures f.stack != [] && !f.stack[|f.stack| - 1].Dict? ==> Keyed(f, key) == Outcome(true, f)
  {
  }

  /**
   * End* refuses an empty stack or a top of the other kind, changing nothing;
   * otherwise it pops the container and hands it to what is below.
   */
  lemma EndPopsMatching(f: Frame, dict: bool)
    requires WellStacked(f.stack)
    ensures f.stack == [] ==> Ended(f, dict) == Outcome(false, f)
    ensures f.stack != [] && (if dict then !f.stack[|f.stack| - 1].Dict? else !f.stack[|f.stack| - 1].Array?) ==>
              Ended(f, dict) == Outcome(false, f)
    ensures f.stack != [] && (if dict then f.stack[|f.stack| - 1].Dict? else f.stack[|f.stack| - 1].Array?) ==>
              WellStacked(f.stack[..|f.stack| - 1]) &&
              Ended(f, dict) == Added(Frame(f.root, f.stack[..|f.stack| - 1]), f.stack[|f.stack| - 1])
  {
    if f.stack != [] {
      WellStackedPrefix(f.stack, |f.stack| - 1);
    }
  }

  /** Opening a container and closing it at once adds an empty container where a value would go. */
  lemma StartThenEnd(f: Frame, dict: bool)
    requires WellStacked(f.stack)
    ensures var pushed := Started(f, if dict then Dict(map[]) else Array([]));
            WellStacked(pushed.stack) &&
            Ended(pushed, dict) == Added(f, if dict then Dict(map[]) else Array([]))
  {
    var c := if dict then Dict(map[]) else Array([]);
    StackPush(f.stack, c);
    assert (f.stack + [c])[..|f.stack|] == f.stack;
  }

  /**
   * The contexts keep the builder in step: a call a context declares leaves
   * the stack top the returned context stands for, and apart from End* the
   * call cannot throw.
   */
  lemma ContextsTrackStack(f: Frame, ctx: Context, call: Call)
    requires WellStacked(f.stack) && ctx != BuilderContext && Matches(ctx, f) && Allowed(ctx, call)
    ensures !call.EndDictCall? && !call.EndArrayCall? ==> Step(f, call).ok
    ensures Matches(Next(ctx, call), Step(f, call).after)
  {
  }

  /** Right after Key only Value, StartDict and StartArray may follow. */
  lemma AfterKey(call: Call)
    ensures Allowed(KeyContext, call) <==> call.ValueCall? || call.StartDictCall? || call.StartArrayCall?
  {
  }

  /** The value after a key returns a dict context, where only Key and EndDict may follow. */
  lemma AfterKeyValue(value: Node, call: Call)
    ensures Next(KeyContext, ValueCall(value)) == DictContext
    ensures Allowed(DictContext, call) <==> call.KeyCall? || call.EndDictCall?
  {
  }

  /** In an array context Key and EndDict are not declared, and Value returns an array context again. */
  lemma InArray(value: Node, call: Call)
    ensures Allowed(ArrayContext, call) <==> !call.KeyCall? && !call.EndDictCall?
    ensures Next(ArrayContext, ValueCall(value)) == ArrayContext
  {
  }

  // ---------------------------------------------------------------------------
  // The Builder object.

  class Builder {
    var root: Node
    var stack: seq<Node>

    ghost predicate Valid()
      reads this
    {
      WellStacked(stack)
    }

    function State(): Frame
      reads this
    {
      Frame(root, stack)
    }

    constructor ()
      ensures State() == Frame(Null, []) && Valid()
    {
      root := Null;
      stack := [];
    }

    /** AddNode; `ok` is false where the source throws logic_error. */
    method AddNode(node: Node) returns (ok: bool)
      requires Valid()
      modifies this
      ensures Outcome(ok, State()) == Added(old(State()), node)
      ensures Valid()
    {
      AddedKeepsShape(State(), node);
      ok := true;
      if stack == [] {
        if !IsNull(root) {
          ok := false;
          return;
        }
        root := node;
        return;
      }
      var top := stack[|stack| - 1];
      if !IsArray(top) && !IsString(top) {
        ok := false;
        return;
      }
      if IsArray(top) {
        stack := stack[..|stack| - 1] + [Array(top.items + [node])];
        return;
      }
      var key := top.s;
      KeyAboveDict(stack);
      stack := stack[..|stack| - 1];
      var parent := stack[|stack| - 1];
      if IsMap(parent) {
        var entries := parent.entries;
        if key !in entries {
          entries := entries[key := node];
        }
        stack := stack[..|stack| - 1] + [Dict(entries)];
      }
    }

    method Key(key: string) returns (ok: bool)
      requires Valid()
      modifies this
      ensures Outcome(ok, State()) == Keyed(old(State()), key)
      ensures Valid()
    {
      StepKeepsShape(State(), KeyCall(key));
      if stack == [] {
        return false;
      }
      if IsMap(stack[|stack| - 1]) {
        stack := stack + [String(key)];
      }
      return true;
    }

    /** Value: CreateNode maps each alternative of Node::Value to the node holding it, then AddNode. */
    method Value(value: Node) returns (ok: bool)
      requires Valid()
      modifies this
      ensures Outcome(ok, State()) == Added(old(State()), value)
      ensures Valid()
    {
      ok := AddNode(value);
    }

    method StartDict()
      requires Valid()
      modifies this
      ensures State() == Started(old(State()), Dict(map[]))
      ensures Valid()
    {
      StackPush(stack, Dict(map[]));
      stack := stack + [Dict(map[])];
    }

    method StartArray()
      requires Valid()
      modifies this
      ensures State() == Started(old(State()), Array([]))
      ensures Valid()
    {
      StackPush(stack, Array([]));
      stack := stack + [Array([])];
    }

    method EndDict() returns (ok: bool)
      requires Valid()
      modifies this
      ensures Outcome(ok, State()) == Ended(old(State()), true)
      ensures Valid()
    {
      if stack == [] {
        return false;
      }
      var node := stack[|stack| - 1];
      if !IsMap(node) {
        return false;
      }
      WellStackedPrefix(stack, |stack| - 1);
      stack := stack[..|stack| - 1];
      ok := AddNode(node);
    }

    method EndArray() returns (ok: bool)
      requires Valid()
      modifies this
      ensures Outcome(ok, State()) == Ended(old(State()), false)
      ensures Valid()
    {
      if stack == [] {
        return false;
      }
      var node := stack[|stack| - 1];
      if !IsArray(node) {
        return false;
      }
      WellStackedPrefix(stack, |stack| - 1);
      stack := stack[..|stack| - 1];
      ok := AddNode(node);
    }

    /** Build; the builder is left as it is. */
    method Build() returns (r: Result<Node>)
      ensures r.Ok? <==> !root.Null? && stack == []
      ensures r.Ok? ==> r.value == root
      ensures r.Fail? ==> r.failure == LogicError
    {
      if IsNull(root) {
        return Fail(LogicError);
      }
      if stack != [] {
        return Fail(LogicError);
      }
      return Ok(root);
    }

    /**
     * A call made through a context object: the context forwards it to the
     * builder and hands back the context its declaration names.
     */
    method Forward(ctx: Context, call: Call) returns (ok: bool, next: Context)
      requires Valid() && Allowed(ctx, call)
      modifies this
      ensures Outcome(ok, State()) == Step(old(State()), call) && next == Next(ctx, call)
      ensures Valid()
    {
      next := Next(ctx, call);
      match call
      case KeyCall(key) =>
        ok := Key(key);
      case ValueCall(value) =>
        ok := Value(value);
      case StartDictCall =>
        StartDict();
        ok := true;
      case StartArrayCall =>
        StartArray();
        ok := true;
      case EndDictCall =>
        ok := EndDict();
      case EndArrayCall =>
        ok := EndArray();
    }
  }
}
