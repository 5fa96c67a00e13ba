/** The doubly linked children of a `TreeObject` in
    `pypdf/generic/_data_structures.py` (an outline, section 12.3.3 of
    ISO 32000-1): the parent's /First, /Last and /Count, each child's
    /Parent, /Next and /Prev.  Tree nodes are objects of the arena, so a
    node's identity (its Python object and its `indirect_reference`) is
    its reference, and assigning a node to an entry stores that
    reference. */
module TreeObjects {
  import opened PyBase
  import opened PdfObjects

  predicate IsNode(a: Arena, r: Ref) { r in a && IsDictLike(a[r]) }

  function Entries(a: Arena, r: Ref): map<string, Obj>
    requires IsNode(a, r)
  {
    EntriesOf(a[r])
  }

  /** The dictionary at `r` with its entries replaced (a stream keeps its
      data). */
  function SetEntries(a: Arena, r: Ref, e: map<string, Obj>): (b: Arena)
    requires IsNode(a, r)
    ensures b.Keys == a.Keys
    ensures IsNode(b, r) && Entries(b, r) == e
    ensures forall x :: x in a && x != r ==> b[x] == a[x]
    ensures KeepsNodes(a, b)
  {
    var o := a[r];
    a[r := if o.Dict? then Dict(e) else Stream(e, o.data)]
  }

  /** `node[key] = value` for a PDF object value. */
  function Put(a: Arena, r: Ref, key: string, v: Obj): (b: Arena)
    requires IsNode(a, r)
  {
    SetEntries(a, r, Entries(a, r)[key := v])
  }

  /** The entry removed, when present. */
  function Drop(a: Arena, r: Ref, key: string): (b: Arena)
    requires IsNode(a, r)
  {
    SetEntries(a, r, Entries(a, r) - {key})
  }

  /** The link entries of Table 153 of ISO 32000-1 are indirect references
      to objects of the arena. */
  predicate LinkOk(a: Arena, o: Obj, key: string)
  {
    IsDictLike(o) && key in EntriesOf(o) ==> EntriesOf(o)[key].Indirect? && EntriesOf(o)[key].ref in a
  }

  predicate LinksIndirect(a: Arena)
  {
    forall r :: r in a ==>
      LinkOk(a, a[r], "/First") && LinkOk(a, a[r], "/Last") && LinkOk(a, a[r], "/Next")
      && LinkOk(a, a[r], "/Prev") && LinkOk(a, a[r], "/Parent")
  }

  /** The target of a link entry the arena is known to hold. */
  function Target(a: Arena, r: Ref, key: string): (t: Ref)
    requires LinksIndirect(a) && IsNode(a, r) && key in Entries(a, r)
    requires key in ["/First", "/Last", "/Next", "/Prev", "/Parent"]
    ensures t in a && Entries(a, r)[key] == Indirect(t)
  {
    assert LinkOk(a, a[r], key);
    Entries(a, r)[key].ref
  }

  // ---------------------------------------------------------------------
  // Well-linked children
  // ---------------------------------------------------------------------

  predicate LinkIs(a: Arena, x: Ref, key: string, y: Ref)
  {
    IsNode(a, x) && key in Entries(a, x) && Entries(a, x)[key] == Indirect(y)
  }

  predicate NoLink(a: Arena, x: Ref, key: string)
  {
    IsNode(a, x) && key !in Entries(a, x)
  }

  /** `y` follows `x`: `x./Next` is `y` and `y./Prev` is `x`. */
  predicate Adjacent(a: Arena, x: Ref, y: Ref)
  {
    LinkIs(a, x, "/Next", y) && LinkIs(a, y, "/Prev", x)
  }

  predicate Distinct(ns: seq<Ref>)
  {
    forall i, j :: 0 <= i < j < |ns| ==> ns[i] != ns[j]
  }

  /** The first and last children, or neither when there are none. */
  predicate Ends(a: Arena, p: Ref, ns: seq<Ref>)
  {
    if ns == [] then NoLink(a, p, "/First") && NoLink(a, p, "/Last")
    else LinkIs(a, p, "/First", ns[0]) && LinkIs(a, p, "/Last", ns[|ns| - 1])
         && NoLink(a, ns[0], "/Prev") && NoLink(a, ns[|ns| - 1], "/Next")
  }

  /** `ns` are exactly the children of `p`, in order: /First and /Last name
      the ends, /Next and /Prev link neighbours both ways, every child's
      /Parent is `p`, and no node appears twice. */
  predicate WellLinked(a: Arena, p: Ref, ns: seq<Ref>)
  {
    IsNode(a, p) && p !in ns && Distinct(ns)
    && (forall i :: 0 <= i < |ns| ==> LinkIs(a, ns[i], "/Parent", p))
    && (forall i :: 0 <= i < |ns| - 1 ==> Adjacent(a, ns[i], ns[i + 1]))
    && Ends(a, p, ns)
  }

  /** `ns` with the child at `k` taken out. */
  function Without(ns: seq<Ref>, k: nat): (r: seq<Ref>)
    requires k < |ns|
    ensures |r| == |ns| - 1
    ensures forall i :: 0 <= i < |r| ==> r[i] == (if i < k then ns[i] else ns[i + 1])
  {
    ns[..k] + ns[k + 1..]
  }

  /** Links read the same in two arenas that agree on the nodes involved. */
  lemma WellLinkedFrame(a: Arena, b: Arena, p: Ref, ns: seq<Ref>)
    requires WellLinked(a, p, ns)
    requires p in b && b[p] == a[p]
    requires forall i :: 0 <= i < |ns| ==> ns[i] in b && b[ns[i]] == a[ns[i]]
    ensures WellLinked(b, p, ns)
  {
    assert forall i :: 0 <= i < |ns| ==> Entries(b, ns[i]) == Entries(a, ns[i]);
  }

  // ---------------------------------------------------------------------
  // _remove_node_from_tree, remove_from_tree, _reset_node_tree_relationship
  // ---------------------------------------------------------------------

  /** The real number truncated toward zero, as `int(x)` does. */
  function Trunc(x: real): int
  {
    if x >= 0.0 then x.Floor else -((-x).Floor)
  }

  /** `self["/Count"] = NumberObject(self["/Count"] - 1)`. */
  function DecrementCount(a: Arena, p: Ref): (r: Result<Arena>)
    requires IsNode(a, p)
    ensures r.Ok? ==> r.value.Keys == a.Keys && forall x :: x in a && x != p ==> r.value[x] == a[x]
    ensures r.Ok? ==> IsNode(r.value, p) && Entries(r.value, p) - {"/Count"} == Entries(a, p) - {"/Count"}
    ensures "/Count" !in Entries(a, p) ==> r == Err(KeyError)
    ensures "/Count" in Entries(a, p) && GetObject(a, Entries(a, p)["/Count"]).Int? ==>
              r.Ok? && Entries(r.value, p) == Entries(a, p)["/Count" := Int(GetObject(a, Entries(a, p)["/Count"]).i - 1)]
  {
    var e := Entries(a, p);
    if "/Count" !in e then Err(KeyError)
    else match GetObject(a, e["/Count"])
      case Int(i) => Ok(Put(a, p, "/Count", Int(i - 1)))
      case Float(x) => Ok(Put(a, p, "/Count", Int(Trunc(x - 1.0))))
      case _ => Err(TypeError)
  }

  /** The arena `b` keeps the objects of `a` and their kinds. */
  predicate KeepsNodes(a: Arena, b: Arena)
  {
    b.Keys == a.Keys && forall x :: x in a && IsDictLike(a[x]) ==> IsDictLike(b[x])
  }

  /** `parent._remove_node_from_tree(prev, prev_ref, cur, last)`.  As written
      (`corrected` false) the head and tail cases assign None, which
      `__setitem__` rejects with ValueError; corrected, those entries are
      removed instead.  The middle case links the neighbours to each other,
      and every successful case lowers the parent's /Count by one.  `last`
      is compared with the current node by value, as `==` does on
      dictionaries. */
  function RemoveNode(a: Arena, p: Ref, prev: Option<Ref>, cur: Ref, last: Obj, corrected: bool): (r: Result<Arena>)
    requires LinksIndirect(a) && IsNode(a, p) && cur in a
    requires prev.Some? ==> IsNode(a, prev.value)
    ensures r.Ok? ==> KeepsNodes(a, r.value)
  {
    var c := a[cur];
    if prev.None? then
      if last == c then
        if corrected then DecrementCount(Drop(Drop(a, p, "/First"), p, "/Last"), p)
        else Err(ValueError)
      else if !IsDictLike(c) then Err(TypeError)
      else if "/Next" !in EntriesOf(c) then Err(KeyError)
      else
        var next := Target(a, cur, "/Next");
        var a1 := Put(a, p, "/First", Indirect(next));
        if !IsNode(a1, next) then Err(TypeError)
        else if corrected then DecrementCount(Drop(a1, next, "/Prev"), p)
        else Err(ValueError)
    else if last == c then
      var a1 := Put(a, p, "/Last", Indirect(prev.value));
      if corrected then DecrementCount(Drop(a1, prev.value, "/Next"), p)
      else Err(ValueError)
    else if !IsDictLike(c) then Err(TypeError)
    else if "/Next" !in EntriesOf(c) then Err(KeyError)
    else
      var next := Target(a, cur, "/Next");
      var a1 := Put(a, prev.value, "/Next", Indirect(next));
      if !IsNode(a1, next) then Err(TypeError)
      else DecrementCount(Put(a1, next, "/Prev", Indirect(prev.value)), p)
  }

  /** The loop of `remove_from_tree` from `cur` on, with `prev` the node
      before it: the node whose reference is `me`'s is unlinked; a node
      that is not a dictionary or lacks /Next ends the walk with TypeError
      or KeyError.  A cyclic chain never ends in the library; `fuel`
      bounds the number of steps and None stands for running out. */
  function Walk(a: Arena, p: Ref, me: Ref, prev: Option<Ref>, cur: Ref, last: Obj, corrected: bool, fuel: nat): (r: Option<Result<Arena>>)
    requires LinksIndirect(a) && IsNode(a, p) && cur in a
    requires prev.Some? ==> IsNode(a, prev.value)
    ensures r.Some? && r.value.Ok? ==> KeepsNodes(a, r.value.value)
    decreases fuel
  {
    if cur == me then Some(RemoveNode(a, p, prev, cur, last, corrected))
    else if !IsDictLike(a[cur]) then Some(Err(TypeError))
    else if "/Next" !in Entries(a, cur) then Some(Err(KeyError))
    else if fuel == 0 then None
    else Walk(a, p, me, Some(cur), Target(a, cur, "/Next"), last, corrected, fuel - 1)
  }

  /** `_reset_node_tree_relationship(node)`: /Parent is deleted (KeyError
      when absent), then /Next and /Prev when present. */
  function Reset(a: Arena, me: Ref): (r: Result<Arena>)
    requires IsNode(a, me)
    ensures r.Ok? <==> "/Parent" in Entries(a, me)
    ensures r.Err? ==> r.exc == KeyError
    ensures r.Ok? ==> r.value.Keys == a.Keys && forall x :: x in a && x != me ==> r.value[x] == a[x]
    ensures r.Ok? ==> IsNode(r.value, me) && Entries(r.value, me) == Entries(a, me) - {"/Parent", "/Next", "/Prev"}
  {
    var e := Entries(a, me);
    if "/Parent" !in e then Err(KeyError)
    else Ok(SetEntries(a, me, e - {"/Parent", "/Next", "/Prev"}))
  }

  /** `node.remove_from_tree()`: nothing without /Parent; otherwise the
      walk from the parent's /First (the parent's /First and /Last must be
      present), then the node's own links are reset. */
  function RemoveFromTree(a: Arena, me: Ref, corrected: bool, fuel: nat): (r: Option<Result<Arena>>)
    requires LinksIndirect(a) && IsNode(a, me)
    ensures "/Parent" !in Entries(a, me) ==> r == Some(Ok(a))
  {
    var s := Entries(a, me);
    if "/Parent" !in s then Some(Ok(a))
    else
      var p := Target(a, me, "/Parent");
      if !IsDictLike(a[p]) then Some(Err(TypeError))
      else if "/First" !in Entries(a, p) || "/Last" !in Entries(a, p) then Some(Err(KeyError))
      else
        var last := a[Target(a, p, "/Last")];
        match Walk(a, p, me, None, Target(a, p, "/First"), last, corrected, fuel)
        case None => None
        case Some(Err(e)) => Some(Err(e))
        case Some(Ok(b)) => Some(Reset(b, me))
  }

  // ---------------------------------------------------------------------
  // Properties on well-linked children
  // ---------------------------------------------------------------------

  /** The node before position `k`, None for the first. */
  function PrevOf(ns: seq<Ref>, k: nat): Option<Ref>
    requires k < |ns|
  {
    if k == 0 then None else Some(ns[k - 1])
  }

  /** A well-linked parent's /Count is a plain integer. */
  predicate CountIsInt(a: Arena, p: Ref)
  {
    IsNode(a, p) && "/Count" in Entries(a, p) && Entries(a, p)["/Count"].Int?
  }

  /** On well-linked children the walk passes the nodes before `me` and
      reaches it with its predecessor in hand. */
  lemma {:induction false} WalkReaches(a: Arena, p: Ref, ns: seq<Ref>, k: nat, j: nat, last: Obj, corrected: bool, fuel: nat)
    requires LinksIndirect(a) && WellLinked(a, p, ns) && j <= k < |ns| && k - j <= fuel
    ensures ns[j] in a && (j > 0 ==> IsNode(a, ns[j - 1]))
    ensures Walk(a, p, ns[k], PrevOf(ns, j), ns[j], last, corrected, fuel)
            == Some(RemoveNode(a, p, PrevOf(ns, k), ns[k], last, corrected))
    decreases k - j
  {
    assert LinkIs(a, ns[j], "/Parent", p);
    if j > 0 {
      assert LinkIs(a, ns[j - 1], "/Parent", p);
    }
    if j < k {
      assert ns[j] != ns[k];
      assert Adjacent(a, ns[j], ns[j + 1]);
      WalkReaches(a, p, ns, k, j + 1, last, corrected, fuel - 1);
    }
  }

  /** The parent's /Count after the removal. */
  function Lowered(a: Arena, p: Ref): Obj
    requires CountIsInt(a, p)
  {
    Int(Entries(a, p)["/Count"].i - 1)
  }

  /** What removing the only child changes: the parent loses /First and
      /Last and its /Count drops. */
  lemma OnlyEdits(a: Arena, p: Ref, ns: seq<Ref>)
    requires LinksIndirect(a) && WellLinked(a, p, ns) && |ns| == 1 && CountIsInt(a, p)
    ensures var r := RemoveNode(a, p, None, ns[0], a[ns[0]], true);
            r.Ok? && r.value.Keys == a.Keys
            && (forall x :: x in a && x != p ==> r.value[x] == a[x])
            && IsNode(r.value, p) && Entries(r.value, p) == (Entries(a, p) - {"/First", "/Last"})["/Count" := Lowered(a, p)]
  {
    assert LinkIs(a, ns[0], "/Parent", p);
    var a1 := Drop(Drop(a, p, "/First"), p, "/Last");
    assert Entries(a1, p) == Entries(a, p) - {"/First", "/Last"};
    assert RemoveNode(a, p, None, ns[0], a[ns[0]], true) == DecrementCount(a1, p);
  }

  /** What removing the first of several children changes: the parent's
      /First moves to the second child, which loses /Prev. */
  lemma FirstEdits(a: Arena, p: Ref, ns: seq<Ref>)
    requires LinksIndirect(a) && WellLinked(a, p, ns) && |ns| > 1 && CountIsInt(a, p)
    ensures var r := RemoveNode(a, p, None, ns[0], a[ns[|ns| - 1]], true);
            r.Ok? && r.value.Keys == a.Keys
            && (forall x :: x in a && x != p && x != ns[1] ==> r.value[x] == a[x])
            && IsNode(r.value, p) && Entries(r.value, p) == Entries(a, p)["/First" := Indirect(ns[1])]["/Count" := Lowered(a, p)]
            && IsNode(r.value, ns[1]) && Entries(r.value, ns[1]) == Entries(a, ns[1]) - {"/Prev"}
  {
    var n := |ns|;
    assert Adjacent(a, ns[0], ns[1]);
    assert LinkIs(a, ns[0], "/Parent", p) && LinkIs(a, ns[1], "/Parent", p);
    assert a[ns[n - 1]] != a[ns[0]] by {
      assert "/Next" in Entries(a, ns[0]) && "/Next" !in Entries(a, ns[n - 1]);
    }
    var a1 := Drop(Put(a, p, "/First", Indirect(ns[1])), ns[1], "/Prev");
    assert RemoveNode(a, p, None, ns[0], a[ns[n - 1]], true) == DecrementCount(a1, p);
  }

  /** What removing the last of several children changes: the parent's
      /Last moves to the one before, which loses /Next. */
  lemma LastEdits(a: Arena, p: Ref, ns: seq<Ref>)
    requires LinksIndirect(a) && WellLinked(a, p, ns) && |ns| > 1 && CountIsInt(a, p)
    ensures var n := |ns|;
            var r := RemoveNode(a, p, Some(ns[n - 2]), ns[n - 1], a[ns[n - 1]], true);
            r.Ok? && r.value.Keys == a.Keys
            && (forall x :: x in a && x != p && x != ns[n - 2] ==> r.value[x] == a[x])
            && IsNode(r.value, p) && Entries(r.value, p) == Entries(a, p)["/Last" := Indirect(ns[n - 2])]["/Count" := Lowered(a, p)]
            && IsNode(r.value, ns[n - 2]) && Entries(r.value, ns[n - 2]) == Entries(a, ns[n - 2]) - {"/Next"}
  {
    var n := |ns|;
    assert LinkIs(a, ns[n - 2], "/Parent", p);
    var a1 := Drop(Put(a, p, "/Last", Indirect(ns[n - 2])), ns[n - 2], "/Next");
    assert RemoveNode(a, p, Some(ns[n - 2]), ns[n - 1], a[ns[n - 1]], true) == DecrementCount(a1, p);
  }

  /** The children after the first stay well linked once the parent's
      /First names the second and the second has no /Prev. */
  lemma FirstWellLinked(a: Arena, b: Arena, p: Ref, ns: seq<Ref>, c: Obj)
    requires WellLinked(a, p, ns) && |ns| > 1
    requires b.Keys == a.Keys
    requires forall x :: x in a && x != p && x != ns[1] ==> b[x] == a[x]
    requires IsNode(b, p) && Entries(b, p) == Entries(a, p)["/First" := Indirect(ns[1])]["/Count" := c]
    requires IsNode(b, ns[1]) && Entries(b, ns[1]) == Entries(a, ns[1]) - {"/Prev"}
    ensures WellLinked(b, p, Without(ns, 0))
  {
    var n := |ns|;
    FirstParents(a, b, p, ns, Without(ns, 0));
    FirstAdjacent(a, b, p, ns, Without(ns, 0));
    assert LinkIs(a, p, "/Last", ns[n - 1]) && NoLink(a, ns[n - 1], "/Next");
  }

  lemma FirstParents(a: Arena, b: Arena, p: Ref, ns: seq<Ref>, ns': seq<Ref>)
    requires WellLinked(a, p, ns) && |ns| > 1 && ns' == Without(ns, 0)
    requires forall x :: x in a && x != p && x != ns[1] ==> x in b && b[x] == a[x]
    requires IsNode(b, ns[1]) && Entries(b, ns[1]) == Entries(a, ns[1]) - {"/Prev"}
    ensures forall i :: 0 <= i < |ns'| ==> LinkIs(b, ns'[i], "/Parent", p)
  {
    forall i | 0 <= i < |ns'| ensures LinkIs(b, ns'[i], "/Parent", p) {
      assert LinkIs(a, ns[i + 1], "/Parent", p);
    }
  }

  lemma FirstAdjacent(a: Arena, b: Arena, p: Ref, ns: seq<Ref>, ns': seq<Ref>)
    requires WellLinked(a, p, ns) && |ns| > 1 && ns' == Without(ns, 0)
    requires forall x :: x in a && x != p && x != ns[1] ==> x in b && b[x] == a[x]
    requires IsNode(b, ns[1]) && Entries(b, ns[1]) == Entries(a, ns[1]) - {"/Prev"}
    ensures forall i :: 0 <= i < |ns'| - 1 ==> Adjacent(b, ns'[i], ns'[i + 1])
  {
    forall i | 0 <= i < |ns'| - 1 ensures Adjacent(b, ns'[i], ns'[i + 1]) {
      assert Adjacent(a, ns[i + 1], ns[i + 2]);
    }
  }

  /** The children before the last stay well linked once the parent's
      /Last names the one before it and that one has no /Next. */
  lemma LastWellLinked(a: Arena, b: Arena, p: Ref, ns: seq<Ref>, c: Obj)
    requires WellLinked(a, p, ns) && |ns| > 1
    requires b.Keys == a.Keys
    requires forall x :: x in a && x != p && x != ns[|ns| - 2] ==> b[x] == a[x]
    requires IsNode(b, p) && Entries(b, p) == Entries(a, p)["/Last" := Indirect(ns[|ns| - 2])]["/Count" := c]
    requires IsNode(b, ns[|ns| - 2]) && Entries(b, ns[|ns| - 2]) == Entries(a, ns[|ns| - 2]) - {"/Next"}
    ensures WellLinked(b, p, Without(ns, |ns| - 1))
  {
    LastParents(a, b, p, ns, Without(ns, |ns| - 1));
    LastAdjacent(a, b, p, ns, Without(ns, |ns| - 1));
    assert LinkIs(a, p, "/First", ns[0]) && NoLink(a, ns[0], "/Prev");
  }

  lemma LastParents(a: Arena, b: Arena, p: Ref, ns: seq<Ref>, ns': seq<Ref>)
    requires WellLinked(a, p, ns) && |ns| > 1 && ns' == Without(ns, |ns| - 1)
    requires forall x :: x in a && x != p && x != ns[|ns| - 2] ==> x in b && b[x] == a[x]
    requires IsNode(b, ns[|ns| - 2]) && Entries(b, ns[|ns| - 2]) == Entries(a, ns[|ns| - 2]) - {"/Next"}
    ensures forall i :: 0 <= i < |ns'| ==> LinkIs(b, ns'[i], "/Parent", p)
  {
    forall i | 0 <= i < |ns'| ensures LinkIs(b, ns'[i], "/Parent", p) {
      assert LinkIs(a, ns[i], "/Parent", p);
    }
  }

  lemma LastAdjacent(a: Arena, b: Arena, p: Ref, ns: seq<Ref>, ns': seq<Ref>)
    requires WellLinked(a, p, ns) && |ns| > 1 && ns' == Without(ns, |ns| - 1)
    requires forall x :: x in a && x != p && x != ns[|ns| - 2] ==> x in b && b[x] == a[x]
    requires IsNode(b, ns[|ns| - 2]) && Entries(b, ns[|ns| - 2]) == Entries(a, ns[|ns| - 2]) - {"/Next"}
    ensures forall i :: 0 <= i < |ns'| - 1 ==> Adjacent(b, ns'[i], ns'[i + 1])
  {
    forall i | 0 <= i < |ns'| - 1 ensures Adjacent(b, ns'[i], ns'[i + 1]) {
      assert Adjacent(a, ns[i], ns[i + 1]);
    }
  }

  /** What the middle case changes: the predecessor's /Next, the
      successor's /Prev and the parent's /Count, nothing else. */
  lemma MiddleEdits(a: Arena, p: Ref, ns: seq<Ref>, k: nat)
    requires LinksIndirect(a) && WellLinked(a, p, ns) && 0 < k < |ns| - 1 && CountIsInt(a, p)
    ensures var r := RemoveNode(a, p, Some(ns[k - 1]), ns[k], a[ns[|ns| - 1]], true);
            r.Ok? && r.value.Keys == a.Keys
            && (forall x :: x in a && x != ns[k - 1] && x != ns[k + 1] && x != p ==> r.value[x] == a[x])
            && IsNode(r.value, ns[k - 1]) && Entries(r.value, ns[k - 1]) == Entries(a, ns[k - 1])["/Next" := Indirect(ns[k + 1])]
            && IsNode(r.value, ns[k + 1]) && Entries(r.value, ns[k + 1]) == Entries(a, ns[k + 1])["/Prev" := Indirect(ns[k - 1])]
            && IsNode(r.value, p) && Entries(r.value, p) == Entries(a, p)["/Count" := Lowered(a, p)]
  {
    var n := |ns|;
    assert Adjacent(a, ns[k - 1], ns[k]) && Adjacent(a, ns[k], ns[k + 1]);
    assert LinkIs(a, ns[k - 1], "/Parent", p) && LinkIs(a, ns[k + 1], "/Parent", p);
    assert ns[k - 1] != ns[k + 1] && ns[k - 1] != p && ns[k + 1] != p;
    assert a[ns[n - 1]] != a[ns[k]] by {
      assert "/Next" in Entries(a, ns[k]) && "/Next" !in Entries(a, ns[n - 1]);
    }
    var a1 := Put(Put(a, ns[k - 1], "/Next", Indirect(ns[k + 1])), ns[k + 1], "/Prev", Indirect(ns[k - 1]));
    assert RemoveNode(a, p, Some(ns[k - 1]), ns[k], a[ns[n - 1]], true) == DecrementCount(a1, p);
  }

  /** Children well linked in `a` stay well linked without position `k`
      in an arena `b` that differs from `a` only by linking the
      neighbours of `k` to each other and by the parent's /Count. */
  lemma RelinkedWellLinked(a: Arena, b: Arena, p: Ref, ns: seq<Ref>, k: nat, c: Obj)
    requires WellLinked(a, p, ns) && 0 < k < |ns| - 1
    requires b.Keys == a.Keys
    requires forall x :: x in a && x != ns[k - 1] && x != ns[k + 1] && x != p ==> b[x] == a[x]
    requires IsNode(b, ns[k - 1]) && Entries(b, ns[k - 1]) == Entries(a, ns[k - 1])["/Next" := Indirect(ns[k + 1])]
    requires IsNode(b, ns[k + 1]) && Entries(b, ns[k + 1]) == Entries(a, ns[k + 1])["/Prev" := Indirect(ns[k - 1])]
    requires IsNode(b, p) && Entries(b, p) == Entries(a, p)["/Count" := c]
    ensures WellLinked(b, p, Without(ns, k))
  {
    var ns' := Without(ns, k);
    RelinkedParents(a, b, p, ns, k);
    RelinkedAdjacent(a, b, p, ns, k);
    assert NoLink(a, ns[0], "/Prev") && NoLink(a, ns[|ns| - 1], "/Next");
    assert LinkIs(a, p, "/First", ns[0]) && LinkIs(a, p, "/Last", ns[|ns| - 1]);
  }

  lemma RelinkedParents(a: Arena, b: Arena, p: Ref, ns: seq<Ref>, k: nat)
    requires WellLinked(a, p, ns) && 0 < k < |ns| - 1
    requires b.Keys == a.Keys
    requires forall x :: x in a && x != ns[k - 1] && x != ns[k + 1] && x != p ==> b[x] == a[x]
    requires IsNode(b, ns[k - 1]) && Entries(b, ns[k - 1]) == Entries(a, ns[k - 1])["/Next" := Indirect(ns[k + 1])]
    requires IsNode(b, ns[k + 1]) && Entries(b, ns[k + 1]) == Entries(a, ns[k + 1])["/Prev" := Indirect(ns[k - 1])]
    ensures forall i :: 0 <= i < |ns| - 1 ==> LinkIs(b, Without(ns, k)[i], "/Parent", p)
  {
    forall i | 0 <= i < |ns| - 1 ensures LinkIs(b, Without(ns, k)[i], "/Parent", p) {
      var j := if i < k then i else i + 1;
      assert LinkIs(a, ns[j], "/Parent", p);
    }
  }

  lemma RelinkedAdjacent(a: Arena, b: Arena, p: Ref, ns: seq<Ref>, k: nat)
    requires WellLinked(a, p, ns) && 0 < k < |ns| - 1
    requires b.Keys == a.Keys
    requires forall x :: x in a && x != ns[k - 1] && x != ns[k + 1] && x != p ==> b[x] == a[x]
    requires IsNode(b, ns[k - 1]) && Entries(b, ns[k - 1]) == Entries(a, ns[k - 1])["/Next" := Indirect(ns[k + 1])]
    requires IsNode(b, ns[k + 1]) && Entries(b, ns[k + 1]) == Entries(a, ns[k + 1])["/Prev" := Indirect(ns[k - 1])]
    ensures forall i :: 0 <= i < |ns| - 2 ==> Adjacent(b, Without(ns, k)[i], Without(ns, k)[i + 1])
  {
    var ns' := Without(ns, k);
    forall i | 0 <= i < |ns| - 2 ensures Adjacent(b, ns'[i], ns'[i + 1]) {
      if i < k - 1 {
        assert Adjacent(a, ns[i], ns[i + 1]);
        assert ns[i] != ns[k - 1] && ns[i] != ns[k + 1];
      } else if i >= k {
        assert Adjacent(a, ns[i + 1], ns[i + 2]);
        assert ns[i + 2] != ns[k - 1] && ns[i + 2] != ns[k + 1];
      }
    }
  }

  /** The removal the corrected walk performs on the child at `k`: the
      other children stay well linked, the parent's /Count drops by one,
      and only the parent and the removed node's neighbours change. */
  lemma RemoveAt(a: Arena, p: Ref, ns: seq<Ref>, k: nat)
    requires LinksIndirect(a) && WellLinked(a, p, ns) && k < |ns| && CountIsInt(a, p)
    ensures var r := RemoveNode(a, p, PrevOf(ns, k), ns[k], a[ns[|ns| - 1]], true);
            r.Ok? && WellLinked(r.value, p, Without(ns, k)) && r.value.Keys == a.Keys
            && (forall x :: x in a && x != p && x !in Without(ns, k) ==> r.value[x] == a[x])
            && CountIsInt(r.value, p) && Entries(r.value, p)["/Count"] == Lowered(a, p)
  {
    var n := |ns|;
    if n == 1 {
      OnlyEdits(a, p, ns);
      assert Without(ns, 0) == [];
    } else if k == 0 {
      FirstEdits(a, p, ns);
      var b := RemoveNode(a, p, None, ns[0], a[ns[n - 1]], true).value;
      FirstWellLinked(a, b, p, ns, Lowered(a, p));
      assert ns[1] == Without(ns, 0)[0];
    } else if k == n - 1 {
      LastEdits(a, p, ns);
      var b := RemoveNode(a, p, Some(ns[n - 2]), ns[n - 1], a[ns[n - 1]], true).value;
      LastWellLinked(a, b, p, ns, Lowered(a, p));
      assert ns[n - 2] == Without(ns, n - 1)[n - 2];
    } else {
      MiddleEdits(a, p, ns, k);
      var b := RemoveNode(a, p, Some(ns[k - 1]), ns[k], a[ns[n - 1]], true).value;
      RelinkedWellLinked(a, b, p, ns, k, Lowered(a, p));
      assert ns[k - 1] == Without(ns, k)[k - 1] && ns[k + 1] == Without(ns, k)[k];
    }
  }

  /** The parent's /First and /Last as the walk starts from them. */
  lemma StartOfWalk(a: Arena, p: Ref, ns: seq<Ref>, k: nat)
    requires LinksIndirect(a) && WellLinked(a, p, ns) && k < |ns|
    ensures IsNode(a, ns[k]) && "/Parent" in Entries(a, ns[k]) && Target(a, ns[k], "/Parent") == p
    ensures "/First" in Entries(a, p) && "/Last" in Entries(a, p)
    ensures Target(a, p, "/First") == ns[0] && Target(a, p, "/Last") == ns[|ns| - 1]
  {
    assert LinkIs(a, ns[k], "/Parent", p);
  }

  /** Corrected, `remove_from_tree` on the child at `k` leaves the other
      children well linked in their order, lowers the parent's /Count by
      one, strips the node's own /Parent, /Next and /Prev, and changes no
      object outside the parent and its children. */
  lemma RemoveFromTreeUnlinks(a: Arena, p: Ref, ns: seq<Ref>, k: nat, fuel: nat)
    requires LinksIndirect(a) && WellLinked(a, p, ns) && k < |ns| && k <= fuel && CountIsInt(a, p)
    ensures var r := RemoveFromTree(a, ns[k], true, fuel);
            r.Some? && r.value.Ok?
            && WellLinked(r.value.value, p, Without(ns, k))
            && CountIsInt(r.value.value, p) && Entries(r.value.value, p)["/Count"].i == Entries(a, p)["/Count"].i - 1
            && IsNode(r.value.value, ns[k])
            && Entries(r.value.value, ns[k]) == Entries(a, ns[k]) - {"/Parent", "/Next", "/Prev"}
            && (forall x :: x in a && x != p && x !in ns ==> x in r.value.value && r.value.value[x] == a[x])
  {
    StartOfWalk(a, p, ns, k);
    var last := a[ns[|ns| - 1]];
    WalkReaches(a, p, ns, k, 0, last, true, fuel);
    RemoveAt(a, p, ns, k);
    var b := RemoveNode(a, p, PrevOf(ns, k), ns[k], last, true).value;
    assert RemoveFromTree(a, ns[k], true, fuel) == Some(Reset(b, ns[k]));
    ResetAfterRemove(a, b, p, ns, k);
  }

  /** The reset that ends `remove_from_tree` touches only the removed
      node, which is no longer among the children. */
  lemma ResetAfterRemove(a: Arena, b: Arena, p: Ref, ns: seq<Ref>, k: nat)
    requires WellLinked(a, p, ns) && k < |ns| && CountIsInt(a, p)
    requires WellLinked(b, p, Without(ns, k)) && b.Keys == a.Keys
    requires forall x :: x in a && x != p && x !in Without(ns, k) ==> b[x] == a[x]
    requires CountIsInt(b, p) && Entries(b, p)["/Count"] == Lowered(a, p)
    ensures var r := Reset(b, ns[k]);
            r.Ok? && WellLinked(r.value, p, Without(ns, k))
            && CountIsInt(r.value, p) && Entries(r.value, p)["/Count"].i == Entries(a, p)["/Count"].i - 1
            && IsNode(r.value, ns[k])
            && Entries(r.value, ns[k]) == Entries(a, ns[k]) - {"/Parent", "/Next", "/Prev"}
            && (forall x :: x in a && x != p && x !in ns ==> x in r.value && r.value[x] == a[x])
  {
    WithoutDrops(ns, k);
    assert LinkIs(a, ns[k], "/Parent", p);
    var c := Reset(b, ns[k]).value;
    WellLinkedFrame(b, c, p, Without(ns, k));
  }

  /** Taking a child out leaves only other children, and not it. */
  lemma WithoutDrops(ns: seq<Ref>, k: nat)
    requires Distinct(ns) && k < |ns|
    ensures ns[k] !in Without(ns, k)
    ensures forall x :: x in Without(ns, k) ==> x in ns
  {
    var r := Without(ns, k);
    forall i | 0 <= i < |r| ensures r[i] != ns[k] && r[i] in ns {
      if i < k {
        assert r[i] == ns[i];
      } else {
        assert r[i] == ns[i + 1];
      }
    }
  }

  /** As written, removing the first or the last child raises ValueError
      (a None assignment), whatever the other children. */
  lemma RemoveEndsAsWritten(a: Arena, p: Ref, ns: seq<Ref>, k: nat, fuel: nat)
    requires LinksIndirect(a) && WellLinked(a, p, ns) && k < |ns| && k <= fuel
    requires k == 0 || k == |ns| - 1
    ensures RemoveFromTree(a, ns[k], false, fuel) == Some(Err(ValueError))
  {
    StartOfWalk(a, p, ns, k);
    var n := |ns|;
    var last := a[ns[n - 1]];
    WalkReaches(a, p, ns, k, 0, last, false, fuel);
    if k == 0 && n > 1 {
      assert Adjacent(a, ns[0], ns[1]);
      assert LinkIs(a, ns[1], "/Parent", p);
      assert last != a[ns[0]] by {
        assert "/Next" in Entries(a, ns[0]) && "/Next" !in Entries(a, ns[n - 1]);
      }
    }
  }

  /** As written, removing a child between two others does what the
      corrected removal does. */
  lemma RemoveMiddleAsWritten(a: Arena, p: Ref, ns: seq<Ref>, k: nat, fuel: nat)
    requires LinksIndirect(a) && WellLinked(a, p, ns) && 0 < k < |ns| - 1 && k <= fuel
    ensures RemoveFromTree(a, ns[k], false, fuel) == RemoveFromTree(a, ns[k], true, fuel)
  {
    StartOfWalk(a, p, ns, k);
    var n := |ns|;
    var last := a[ns[n - 1]];
    WalkReaches(a, p, ns, k, 0, last, false, fuel);
    WalkReaches(a, p, ns, k, 0, last, true, fuel);
    assert last != a[ns[k]] by {
      assert Adjacent(a, ns[k], ns[k + 1]);
      assert "/Next" in Entries(a, ns[k]) && "/Next" !in Entries(a, ns[n - 1]);
    }
  }

  /** A node whose /Parent names `p` but that is not among `p`'s children
      is not found: the walk runs off the last child, whose missing /Next
      raises KeyError (the loop's `cur is not None` test never fails). */
  lemma {:induction false} WalkMissing(a: Arena, p: Ref, ns: seq<Ref>, me: Ref, j: nat, last: Obj, corrected: bool, fuel: nat)
    requires LinksIndirect(a) && WellLinked(a, p, ns) && j < |ns| && me !in ns && |ns| - 1 - j <= fuel
    ensures ns[j] in a && (j > 0 ==> IsNode(a, ns[j - 1]))
    ensures Walk(a, p, me, PrevOf(ns, j), ns[j], last, corrected, fuel) == Some(Err(KeyError))
    decreases |ns| - j
  {
    assert LinkIs(a, ns[j], "/Parent", p);
    if j > 0 {
      assert LinkIs(a, ns[j - 1], "/Parent", p);
    }
    if j < |ns| - 1 {
      assert Adjacent(a, ns[j], ns[j + 1]);
      WalkMissing(a, p, ns, me, j + 1, last, corrected, fuel - 1);
    } else {
      assert NoLink(a, ns[j], "/Next");
    }
  }

  /** `remove_from_tree` on a node that claims a parent without being one
      of its children raises KeyError. */
  lemma RemoveStranger(a: Arena, p: Ref, ns: seq<Ref>, me: Ref, corrected: bool, fuel: nat)
    requires LinksIndirect(a) && WellLinked(a, p, ns) && ns != [] && |ns| <= fuel
    requires IsNode(a, me) && me !in ns && LinkIs(a, me, "/Parent", p)
    ensures RemoveFromTree(a, me, corrected, fuel) == Some(Err(KeyError))
  {
    StartOfWalk(a, p, ns, 0);
    WalkMissing(a, p, ns, me, 0, a[ns[|ns| - 1]], corrected, fuel);
  }
}
