/** The parse-tree nodes of the mislib cell-library reader
    (`MislibPtImpl1`): strings, numbers, phases, constants and lists.
    Nodes live in a heap keyed by address; a list keeps its first and last
    element and chains the elements through their `next` links. */
module MislibPt {
  import opened Base

  /** The node kinds.  `Chained` stands for the node classes defined
      elsewhere (pins and gates) that keep a `next` link; the classes here
      inherit the base `set_next`/`next`, which keep none. */
  datatype Node =
    | Str(name: string)
    | Num
    | Noninv
    | Inv
    | Unknown
    | Const0
    | Const1
    | PtList(top: Option<nat>, end: Option<nat>)
    | Chained(next: Option<nat>)

  type Heap = map<nat, Node>

  /** `is_expr()`: the kinds that stand for a logic expression. */
  predicate IsExpr(n: Node) {
    match n
    case Str(_) => true
    case Const0 => true
    case Const1 => true
    case _ => false
  }

  /** The logic expressions a node converts to. */
  datatype Expr = Zero | One | PosLiteral(index: nat)

  /** `to_expr(name_map)`: constants give the constant functions and a
      string gives the positive literal of the pin its name maps to; a
      name missing from the map and every other kind fail an assertion in
      the source, here `None`. */
  function ToExpr(n: Node, nameMap: map<string, nat>): (r: Option<Expr>)
    ensures r.Some? ==> IsExpr(n)
    ensures n == Const0 <==> r == Some(Zero)
    ensures n == Const1 <==> r == Some(One)
    ensures n.Str? && n.name in nameMap ==> r == Some(PosLiteral(nameMap[n.name]))
  {
    match n
    case Const0 => Some(Zero)
    case Const1 => Some(One)
    case Str(name) => if name in nameMap then Some(PosLiteral(nameMap[name])) else None
    case _ => None
  }

  /** Conversion succeeds exactly for the expression kinds, provided a
      string names a mapped pin. */
  lemma ToExprDefined(n: Node, nameMap: map<string, nat>)
    ensures ToExpr(n, nameMap).Some? <==> IsExpr(n) && (n.Str? ==> n.name in nameMap)
  {
  }

  /** `str()`: the text of a string node; the null string otherwise. */
  function StrOf(n: Node): (r: Option<string>)
    ensures r.Some? <==> n.Str?
  {
    if n.Str? then Some(n.name) else None
  }

  /** `set_next(pin)`: only a chained node records the link; the base
      version does nothing. */
  function SetNext(h: Heap, id: nat, pin: nat): (r: Heap)
    requires id in h
    ensures r.Keys == h.Keys
    ensures forall k :: k in h && k != id ==> r[k] == h[k]
    ensures h[id].Chained? ==> r[id] == Chained(Some(pin))
    ensures !h[id].Chained? ==> r == h
  {
    if h[id].Chained? then h[id := Chained(Some(pin))] else h
  }

  /** `next()`: the link of a chained node; null for every kind here. */
  function Next(n: Node): (r: Option<nat>)
    ensures !n.Chained? ==> r == None
  {
    if n.Chained? then n.next else None
  }

  /** A list node whose last element, if any, is in the heap. */
  predicate ListOk(h: Heap, list: nat) {
    list in h && h[list].PtList?
    && (h[list].end.Some? ==> h[list].end.value in h && h[list].end.value != list)
  }

  /** `push_back(obj)`: an empty list starts at `obj`; otherwise the last
      element is linked to `obj`, which becomes the last. */
  function PushBack(h: Heap, list: nat, obj: nat): (r: Heap)
    requires ListOk(h, list)
    ensures r.Keys == h.Keys && r[list].PtList?
    ensures r[list].end == Some(obj)
    ensures h[list].end.None? ==> r[list].top == Some(obj)
    ensures h[list].end.Some? ==> r[list].top == h[list].top
  {
    var l := h[list];
    if l.end.Some? then
      SetNext(h, l.end.value, obj)[list := PtList(l.top, Some(obj))]
    else
      h[list := PtList(Some(obj), Some(obj))]
  }

  /** `top()`. */
  function Top(h: Heap, list: nat): Option<nat>
    requires list in h && h[list].PtList?
  {
    h[list].top
  }

  /** Pushing after an element of a kind defined here drops the link: the
      last element still has no successor. */
  lemma PushBackAfterPlainNode(h: Heap, list: nat, obj: nat)
    requires ListOk(h, list) && h[list].end.Some? && !h[h[list].end.value].Chained?
    ensures var r := PushBack(h, list, obj);
            Next(r[h[list].end.value]) == None
  {
  }

  /** The elements reached from `cur` by following `next`, at most `fuel`
      of them: the walk of the list dump. */
  function Walk(h: Heap, cur: Option<nat>, fuel: nat): (r: seq<nat>)
    ensures |r| <= fuel
    ensures forall i :: 0 <= i < |r| ==> r[i] in h
    decreases fuel
  {
    if fuel == 0 || cur.None? || cur.value !in h then []
    else [cur.value] + Walk(h, Next(h[cur.value]), fuel - 1)
  }

  /** A list whose first element is of a kind defined here walks to that
      element alone, whatever was pushed after it. */
  lemma WalkFromPlainNode(h: Heap, id: nat, fuel: nat)
    requires id in h && !h[id].Chained? && fuel > 0
    ensures Walk(h, Some(id), fuel) == [id]
  {
  }

  /** `ids` is a chain: each element links to the next and the last to
      nothing. */
  predicate Linked(h: Heap, ids: seq<nat>) {
    forall i :: 0 <= i < |ids| ==> LinkedAt(h, ids, i)
  }

  predicate LinkedAt(h: Heap, ids: seq<nat>, i: nat)
    requires i < |ids|
  {
    ids[i] in h && h[ids[i]].Chained?
    && h[ids[i]].next == (if i + 1 < |ids| then Some(ids[i + 1]) else None)
  }

  /** Walking a chain from its first element yields the chain. */
  lemma {:induction false} WalkLinked(h: Heap, ids: seq<nat>)
    requires |ids| > 0 && Linked(h, ids)
    ensures Walk(h, Some(ids[0]), |ids|) == ids
  {
    assert LinkedAt(h, ids, 0);
    if |ids| > 1 {
      var rest := ids[1..];
      forall i | 0 <= i < |rest|
        ensures LinkedAt(h, rest, i)
      {
        assert LinkedAt(h, ids, i + 1);
      }
      WalkLinked(h, rest);
    }
  }

  /** Building a list from fresh chained nodes: after pushing them all,
      the list starts at the first, ends at the last, and its walk yields
      exactly the nodes in push order. */
  method PushAll(h: Heap, list: nat, ids: seq<nat>) returns (h': Heap)
    requires list in h && h[list] == PtList(None, None)
    requires forall i :: 0 <= i < |ids| ==> ids[i] in h && ids[i] != list && h[ids[i]] == Chained(None)
    requires forall i, j :: 0 <= i < j < |ids| ==> ids[i] != ids[j]
    ensures h'.Keys == h.Keys && h'[list].PtList?
    ensures |ids| == 0 ==> h'[list] == PtList(None, None)
    ensures |ids| > 0 ==> h'[list] == PtList(Some(ids[0]), Some(ids[|ids| - 1]))
    ensures |ids| > 0 ==> Walk(h', Top(h', list), |ids|) == ids
  {
    h' := h;
    var k := 0;
    while k < |ids|
      invariant k <= |ids| && h'.Keys == h.Keys && list in h'
      invariant k == 0 ==> h'[list] == PtList(None, None)
      invariant k > 0 ==> h'[list] == PtList(Some(ids[0]), Some(ids[k - 1]))
      invariant Linked(h', ids[..k])
      invariant forall i :: k <= i < |ids| ==> h'[ids[i]] == Chained(None)
    {
      var before := h';
      h' := PushBack(h', list, ids[k]);
      var pre := ids[..k + 1];
      forall i | 0 <= i < |pre|
        ensures LinkedAt(h', pre, i)
      {
        assert pre[i] == ids[i];
        if i < k {
          assert LinkedAt(before, ids[..k], i);
        }
      }
      k := k + 1;
    }
    assert ids[..k] == ids;
    if |ids| > 0 {
      WalkLinked(h', ids);
    }
  }
}
