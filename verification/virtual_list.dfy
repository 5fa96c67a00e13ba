/** `_VirtualList` of `pypdf/_page.py`: the document's pages as a Python
    sequence.  Its length and item functions are the document's
    flattened page list `flat` (the list `_get_page` reads); deleting a
    page unhooks it from the page tree (section 7.7.3.2 of ISO 32000-1):
    the page leaves its parent's /Kids, the parent's /Count drops, and a
    parent left without kids leaves its own parent in turn. */
module VirtualLists {
  import opened PyBase
  import opened PdfObjects
  import PageRanges
  import PyText
  import TreeObjects

  // ---------------------------------------------------------------------
  // __getitem__
  // ---------------------------------------------------------------------

  /** The argument of `[]`: an int, a slice, or anything else. */
  datatype Index = IntIndex(i: int) | SliceIndex(sl: PageRanges.Slice) | OtherIndex

  /** What `[]` yields: the page at a position, or a new virtual list
      whose k-th page is the page at `positions[k]`. */
  datatype Item = At(pos: nat) | View(positions: seq<int>)

  /** A Python index into a sequence of length `n`: a negative index
      counts from the end; out of range raises IndexError. */
  function Normalize(n: nat, i: int): (r: Result<nat>)
    ensures r.Ok? <==> -(n as int) <= i < n
    ensures r.Err? ==> r.exc == IndexError
    ensures r.Ok? ==> r.value < n && r.value as int % n == i % n
  {
    var j := if i < 0 then n + i else i;
    if j < 0 || j >= n then Err(IndexError) else Ok(j)
  }

  /** `__getitem__`: an int reads one page, a slice makes a view of the
      positions `range(*index.indices(len(self)))`, anything else raises
      TypeError. */
  function GetItem(n: nat, index: Index): (r: Result<Item>)
    ensures index.OtherIndex? ==> r == Err(TypeError)
    ensures index.IntIndex? ==> (r.Ok? <==> -(n as int) <= index.i < n) && (r.Err? ==> r.exc == IndexError)
    ensures index.SliceIndex? ==> (r.Err? <==> index.sl.step == Some(0))
    ensures r.Ok? && r.value.At? ==> r.value.pos < n
    ensures r.Ok? && r.value.View? ==>
              forall k :: 0 <= k < |r.value.positions| ==> 0 <= r.value.positions[k] < n
  {
    match index
    case IntIndex(i) =>
      var j :- Normalize(n, i);
      Ok(At(j))
    case SliceIndex(sl) =>
      var ps :- PageRanges.Pages(PageRanges.PageRange(sl), n);
      PageRanges.PagesInBounds(PageRanges.PageRange(sl), n);
      Ok(View(ps))
    case OtherIndex => Err(TypeError)
  }

  /** Reading through `[]` is Python's list indexing of the flattened
      pages: the position of `flat[i]` for `0 <= i < n`, of
      `flat[n + i]` for `-n <= i < 0`. */
  lemma GetItemIsListIndex(flat: seq<Ref>, i: int)
    requires -|flat| <= i < |flat|
    ensures GetItem(|flat|, IntIndex(i)).Ok?
    ensures var p := GetItem(|flat|, IntIndex(i)).value.pos;
            flat[p] == (if i >= 0 then flat[i] else flat[|flat| + i])
  {
  }

  /** `range(a, b)` read position by position. */
  lemma {:induction false} RangeListAt(a: int, b: int, k: nat)
    requires a <= b && k < b - a
    ensures |PageRanges.RangeList(a, b, 1)| == b - a
    ensures PageRanges.RangeList(a, b, 1)[k] == a + k
    decreases b - a
  {
    if k > 0 {
      RangeListAt(a + 1, b, k - 1);
    } else if a + 1 <= b {
      RangeListLength(a + 1, b);
    }
  }

  lemma {:induction false} RangeListLength(a: int, b: int)
    requires a <= b
    ensures |PageRanges.RangeList(a, b, 1)| == b - a
    decreases b - a
  {
    if a < b {
      RangeListLength(a + 1, b);
    }
  }

  /** A view of the slice `[a:b]` with `0 <= a <= b <= n` reads the
      pages `a, a + 1, ..., b - 1`, as slicing a list does. */
  lemma SliceViewIsListSlice(n: nat, a: nat, b: nat)
    requires a <= b <= n
    ensures var r := GetItem(n, SliceIndex(PageRanges.Slice(Some(a), Some(b), None)));
            r.Ok? && r.value.View? && |r.value.positions| == b - a
            && forall k :: 0 <= k < b - a ==> r.value.positions[k] == a + k
  {
    var sl := PageRanges.Slice(Some(a), Some(b), None);
    var t := PageRanges.Indices(sl, n).value;
    assert t == (a as int, b as int, 1);
    RangeListLength(a, b);
    forall k | 0 <= k < b - a ensures PageRanges.RangeList(a, b, 1)[k] == a + k {
      RangeListAt(a, b, k);
    }
  }

  // ---------------------------------------------------------------------
  // __delitem__
  // ---------------------------------------------------------------------

  /** The page tree and the flattened page list. */
  datatype Doc = Doc(arena: Arena, flat: seq<Ref>)

  /** The /Parent of a page-tree node is an indirect reference (Table 30
      of ISO 32000-1); at least it is never a dictionary held inline. */
  predicate NoDirectParents(a: Arena)
  {
    forall r :: r in a && IsDictLike(a[r]) && "/Parent" in EntriesOf(a[r]) ==>
      !IsDictLike(EntriesOf(a[r])["/Parent"])
  }

  /** The flattened list holds page dictionaries of the arena. */
  predicate PagesAreNodes(d: Doc)
  {
    forall i :: 0 <= i < |d.flat| ==> TreeObjects.IsNode(d.arena, d.flat[i])
  }

  function ParentEntry(o: Obj): Option<Obj>
    requires IsDictLike(o)
  {
    if "/Parent" in EntriesOf(o) then Some(EntriesOf(o)["/Parent"]) else None
  }

  /** `b` holds the objects of `a`, dictionaries where `a` has them, with
      the same /Parent entries. */
  predicate KeepsParents(a: Arena, b: Arena)
  {
    b.Keys == a.Keys
    && forall x :: x in a ==>
         (IsDictLike(b[x]) <==> IsDictLike(a[x]))
         && (IsDictLike(a[x]) ==> ParentEntry(b[x]) == ParentEntry(a[x]))
  }

  lemma KeepsParentsTrans(a: Arena, b: Arena, c: Arena)
    requires KeepsParents(a, b) && KeepsParents(b, c)
    ensures KeepsParents(a, c)
  {
  }

  lemma KeepsNoDirectParents(a: Arena, b: Arena)
    requires NoDirectParents(a) && KeepsParents(a, b)
    ensures NoDirectParents(b)
  {
    forall r | r in b && IsDictLike(b[r]) && "/Parent" in EntriesOf(b[r])
      ensures !IsDictLike(EntriesOf(b[r])["/Parent"])
    {
      assert ParentEntry(b[r]) == ParentEntry(a[r]);
    }
  }

  /** The first position of `x` in `s`, as `list.index` finds it. */
  function IndexOf(s: seq<Obj>, x: Obj): (r: Option<nat>)
    ensures r.Some? ==> r.value < |s| && s[r.value] == x
                        && forall k :: 0 <= k < r.value ==> s[k] != x
    ensures r.None? <==> x !in s
  {
    if s == [] then None
    else if s[0] == x then Some(0)
    else match IndexOf(s[1..], x)
      case None => None
      case Some(k) => Some(k + 1)
  }

  /** Reference for `del kids[kids.index(x)]`: the list with its first
      `x` taken out, or unchanged when it holds no `x`. */
  function RemoveFirst(s: seq<Obj>, x: Obj): (r: seq<Obj>)
    ensures x !in s ==> r == s
    ensures x in s ==> |r| == |s| - 1
  {
    if s == [] then []
    else if s[0] == x then s[1..]
    else [s[0]] + RemoveFirst(s[1..], x)
  }

  /** Deleting at the position `index` finds is taking out the first
      occurrence. */
  lemma {:induction false} RemoveFirstSplice(s: seq<Obj>, x: Obj)
    ensures IndexOf(s, x).Some? ==>
              var i := IndexOf(s, x).value;
              s[..i] + s[i + 1..] == RemoveFirst(s, x)
    decreases |s|
  {
    if s != [] && s[0] != x && IndexOf(s, x).Some? {
      var t := s[1..];
      RemoveFirstSplice(t, x);
      var i := IndexOf(t, x).value;
      assert IndexOf(s, x).value == i + 1;
      assert s[..i + 1] == [s[0]] + t[..i];
      assert s[i + 2..] == t[i + 1..];
      assert RemoveFirst(s, x) == [s[0]] + (t[..i] + t[i + 1..]);
    }
  }

  /** The kids of `p`: its /Kids entry, resolved, when that is an array. */
  function KidsOf(a: Arena, p: Ref): Option<seq<Obj>>
    requires TreeObjects.IsNode(a, p)
  {
    var e := TreeObjects.Entries(a, p);
    if "/Kids" in e && GetObject(a, e["/Kids"]).Array? then Some(GetObject(a, e["/Kids"]).items) else None
  }

  /** The count of `p` can take the decrement: absent or an integer. */
  predicate CountFits(a: Arena, p: Ref)
    requires TreeObjects.IsNode(a, p)
  {
    "/Count" in TreeObjects.Entries(a, p) ==> TreeObjects.CountIsInt(a, p)
  }

  /** `parent["/Count"] = NumberObject(parent["/Count"] - 1)` when /Count
      is present; nothing otherwise. */
  function LowerCount(a: Arena, p: Ref): (r: Result<Arena>)
    requires TreeObjects.IsNode(a, p)
    ensures r.Ok? ==> KeepsParents(a, r.value)
    ensures r.Ok? ==> TreeObjects.IsNode(r.value, p)
                      && forall x :: x in a && x != p ==> r.value[x] == a[x]
    ensures r.Ok? ==> TreeObjects.Entries(r.value, p) - {"/Count"} == TreeObjects.Entries(a, p) - {"/Count"}
                      && ("/Count" in TreeObjects.Entries(r.value, p) <==> "/Count" in TreeObjects.Entries(a, p))
    ensures CountFits(a, p) ==> r.Ok?
    ensures "/Count" !in TreeObjects.Entries(a, p) ==> r == Ok(a)
    ensures TreeObjects.CountIsInt(a, p) ==>
              r.Ok? && TreeObjects.CountIsInt(r.value, p)
              && TreeObjects.Entries(r.value, p)["/Count"].i == TreeObjects.Entries(a, p)["/Count"].i - 1
  {
    if "/Count" in TreeObjects.Entries(a, p) then TreeObjects.DecrementCount(a, p) else Ok(a)
  }

  /** The parent a /Parent entry names, when it is a dictionary of the
      arena; any other value fails the `parent["/Kids"]` lookup with
      TypeError. */
  function ParentNode(a: Arena, parent: Obj): Option<Ref>
  {
    if parent.Indirect? && TreeObjects.IsNode(a, parent.ref) then Some(parent.ref) else None
  }

  /** `b` holds every object of `a` but the parent `p` and the kids array
      its /Kids entry refers to, unchanged. */
  predicate KeepsOffParent(a: Arena, b: Arena, p: Ref)
    requires TreeObjects.IsNode(a, p) && "/Kids" in TreeObjects.Entries(a, p)
  {
    var raw := TreeObjects.Entries(a, p)["/Kids"];
    var touched := if raw.Indirect? then {p, raw.ref} else {p};
    b.Keys == a.Keys && b - touched == a - touched
  }

  /** `del parent["/Kids"][i]`: the kids array, wherever it is stored,
      replaced by `rest`. */
  function StoreKids(a: Arena, p: Ref, rest: seq<Obj>): (b: Arena)
    requires TreeObjects.IsNode(a, p) && KidsOf(a, p).Some?
    ensures KeepsParents(a, b) && TreeObjects.IsNode(b, p) && KidsOf(b, p) == Some(rest)
    ensures TreeObjects.Entries(b, p) - {"/Kids"} == TreeObjects.Entries(a, p) - {"/Kids"}
    ensures "/Kids" in TreeObjects.Entries(b, p)
    ensures !TreeObjects.Entries(a, p)["/Kids"].Indirect? ==> TreeObjects.Entries(b, p)["/Kids"] == Array(rest)
    ensures KeepsOffParent(a, b, p)
  {
    var raw := TreeObjects.Entries(a, p)["/Kids"];
    if raw.Indirect? then a[raw.ref := Array(rest)] else TreeObjects.Put(a, p, "/Kids", Array(rest))
  }

  /** The body of one level on the parent `p`: `i = parent["/Kids"].index(ind)`
      (KeyError without /Kids, TypeError or AttributeError when /Kids is
      not a list, PdfReadError when `ind` is not among the kids), `del
      parent["/Kids"][i]` in the array wherever it is stored, then the
      /Count update.  The flag tells whether the kids are now empty. */
  function Unhook(a: Arena, p: Ref, ind: Ref): (r: Result<(Arena, bool)>)
    requires TreeObjects.IsNode(a, p)
    ensures "/Kids" !in TreeObjects.Entries(a, p) ==> r == Err(KeyError)
    ensures "/Kids" in TreeObjects.Entries(a, p) && KidsOf(a, p).None? ==>
              r.Err? && (r.exc == TypeError || r.exc == AttributeError)
    ensures KidsOf(a, p).Some? && Indirect(ind) !in KidsOf(a, p).value ==> r == Err(PdfReadError)
    ensures KidsOf(a, p).Some? && Indirect(ind) in KidsOf(a, p).value && CountFits(a, p) ==> r.Ok?
    ensures r.Ok? ==> KeepsParents(a, r.value.0)
    ensures r.Ok? ==>
              var e := TreeObjects.Entries(a, p);
              var rest := RemoveFirst(KidsOf(a, p).value, Indirect(ind));
              TreeObjects.IsNode(r.value.0, p)
              && KidsOf(a, p).Some? && Indirect(ind) in KidsOf(a, p).value
              && KidsOf(r.value.0, p) == Some(rest) && (r.value.1 <==> rest == [])
              && TreeObjects.Entries(r.value.0, p) - {"/Kids", "/Count"} == e - {"/Kids", "/Count"}
              && ("/Count" in TreeObjects.Entries(r.value.0, p) <==> "/Count" in e)
              && "/Kids" in TreeObjects.Entries(r.value.0, p)
              && (!e["/Kids"].Indirect? ==> TreeObjects.Entries(r.value.0, p)["/Kids"] == Array(rest))
    ensures r.Ok? && TreeObjects.CountIsInt(a, p) ==>
              TreeObjects.CountIsInt(r.value.0, p)
              && TreeObjects.Entries(r.value.0, p)["/Count"].i == TreeObjects.Entries(a, p)["/Count"].i - 1
  {
    var e := TreeObjects.Entries(a, p);
    if "/Kids" !in e then Err(KeyError)
    else
      var raw := e["/Kids"];
      var kids := GetObject(a, raw);
      if !kids.Array? then Err(if kids.Text? || kids.Name? || kids.Bytes? then TypeError else AttributeError)
      else match IndexOf(kids.items, Indirect(ind))
        case None => Err(PdfReadError)
        case Some(i) =>
          var rest := kids.items[..i] + kids.items[i + 1..];
          RemoveFirstSplice(kids.items, Indirect(ind));
          var a1 := StoreKids(a, p, rest);
          match LowerCount(a1, p)
          case Err(x) => Err(x)
          case Ok(a2) =>
            KeepsParentsTrans(a, a1, a2);
            Ok((a2, rest == []))
  }

  /** One level changes only the parent and the kids array it refers
      to. */
  lemma UnhookFrame(a: Arena, p: Ref, ind: Ref)
    requires TreeObjects.IsNode(a, p)
    ensures var r := Unhook(a, p, ind);
            r.Ok? ==> "/Kids" in TreeObjects.Entries(a, p) && KeepsOffParent(a, r.value.0, p)
  {
  }

  /** The flattened list once the page at `index` left it, when that is
      due at this level. */
  function FlatAfter(flat: seq<Ref>, index: nat, drop: bool): seq<Ref>
  {
    if drop && index < |flat| then TreeObjects.Without(flat, index) else flat
  }

  /** One level of the loop of `__delitem__` and the levels above it: `ind`
      leaves the /Kids of `parent`, the parent's /Count drops, and a
      parent without kids is removed from its own parent in turn.  As
      written (`corrected` false) every level also deletes
      `flat[index]`, and the climb stops at the first parent that keeps
      kids; corrected, the page leaves `flat` once, at the first level,
      and every ancestor above still has its /Count lowered.  `fuel`
      bounds the climb (a cyclic /Parent chain never ends in the
      library); None stands for running out. */
  function Climb(a: Arena, flat: seq<Ref>, index: nat, ind: Ref, parent: Obj, first: bool, corrected: bool, fuel: nat): Option<Result<Doc>>
    decreases fuel, 1
  {
    match ParentNode(a, parent)
    case None => Some(Err(TypeError))
    case Some(p) =>
      match Unhook(a, p, ind)
      case Err(x) => Some(Err(x))
      case Ok((a2, emptied)) => Proceed(a2, p, FlatAfter(flat, index, first || !corrected), index, emptied, corrected, fuel)
  }

  function Proceed(a: Arena, p: Ref, flat: seq<Ref>, index: nat, emptied: bool, corrected: bool, fuel: nat): Option<Result<Doc>>
    requires TreeObjects.IsNode(a, p)
    decreases fuel, 0
  {
    var up := TreeObjects.Entries(a, p);
    if "/Parent" !in up then Some(Ok(Doc(a, flat)))
    else if emptied then
      if fuel == 0 then None
      else Climb(a, flat, index, p, up["/Parent"], false, corrected, fuel - 1)
    else if corrected then
      match CountAbove(a, up["/Parent"], fuel)
      case None => None
      case Some(Err(x)) => Some(Err(x))
      case Some(Ok(a3)) => Some(Ok(Doc(a3, flat)))
    else Some(Ok(Doc(a, flat)))
  }

  /** The corrected continuation once a parent keeps kids: every ancestor
      from `parent` up has its /Count lowered. */
  function CountAbove(a: Arena, parent: Obj, fuel: nat): Option<Result<Arena>>
    decreases fuel
  {
    match ParentNode(a, parent)
    case None => Some(Err(TypeError))
    case Some(p) =>
      match LowerCount(a, p)
      case Err(x) => Some(Err(x))
      case Ok(a1) =>
        var up := TreeObjects.Entries(a1, p);
        if "/Parent" !in up then Some(Ok(a1))
        else if fuel == 0 then None
        else CountAbove(a1, up["/Parent"], fuel - 1)
  }

  /** The continuation keeps every object and every /Parent entry. */
  lemma {:induction false} CountAboveKeeps(a: Arena, parent: Obj, fuel: nat)
    ensures var r := CountAbove(a, parent, fuel);
            r.Some? && r.value.Ok? ==> KeepsParents(a, r.value.value)
    decreases fuel
  {
    match ParentNode(a, parent)
    case None =>
    case Some(p) =>
      match LowerCount(a, p)
      case Err(_) =>
      case Ok(a1) =>
        var up := TreeObjects.Entries(a1, p);
        if "/Parent" in up && fuel > 0 {
          CountAboveKeeps(a1, up["/Parent"], fuel - 1);
          var r := CountAbove(a1, up["/Parent"], fuel - 1);
          if r.Some? && r.value.Ok? {
            KeepsParentsTrans(a, a1, r.value.value);
          }
        }
  }

  /** Taking a position out of the flattened list leaves pages it had. */
  lemma FlatAfterSub(flat: seq<Ref>, index: nat, drop: bool)
    ensures forall x :: x in FlatAfter(flat, index, drop) ==> x in flat
  {
    if drop && index < |flat| {
      var r := TreeObjects.Without(flat, index);
      forall x | x in r ensures x in flat {
        var k :| 0 <= k < |r| && r[k] == x;
        assert x == (if k < index then flat[k] else flat[k + 1]);
      }
    }
  }

  /** The climb keeps every object and every /Parent entry. */
  lemma {:induction false} ClimbKeeps(a: Arena, flat: seq<Ref>, index: nat, ind: Ref, parent: Obj, first: bool, corrected: bool, fuel: nat)
    ensures var r := Climb(a, flat, index, ind, parent, first, corrected, fuel);
            r.Some? && r.value.Ok? ==> KeepsParents(a, r.value.value.arena)
    decreases fuel, 1
  {
    match ParentNode(a, parent)
    case None =>
    case Some(p) =>
      match Unhook(a, p, ind)
      case Err(_) =>
      case Ok((a2, emptied)) =>
        var flat1 := FlatAfter(flat, index, first || !corrected);
        ProceedKeeps(a2, p, flat1, index, emptied, corrected, fuel);
        var r := Proceed(a2, p, flat1, index, emptied, corrected, fuel);
        if r.Some? && r.value.Ok? {
          KeepsParentsTrans(a, a2, r.value.value.arena);
        }
  }

  /** The levels above keep every object and every /Parent entry. */
  lemma {:induction false} ProceedKeeps(a: Arena, p: Ref, flat: seq<Ref>, index: nat, emptied: bool, corrected: bool, fuel: nat)
    requires TreeObjects.IsNode(a, p)
    ensures var r := Proceed(a, p, flat, index, emptied, corrected, fuel);
            r.Some? && r.value.Ok? ==> KeepsParents(a, r.value.value.arena)
    decreases fuel, 0
  {
    var up := TreeObjects.Entries(a, p);
    if "/Parent" in up {
      if emptied {
        if fuel > 0 {
          ClimbKeeps(a, flat, index, p, up["/Parent"], false, corrected, fuel - 1);
        }
      } else if corrected {
        CountAboveKeeps(a, up["/Parent"], fuel);
      }
    }
  }

  /** The climb only takes pages out of the flattened list; corrected, it
      takes out the page at `index` at the first level and nothing
      else. */
  lemma {:induction false} ClimbFlat(a: Arena, flat: seq<Ref>, index: nat, ind: Ref, parent: Obj, first: bool, corrected: bool, fuel: nat)
    ensures var r := Climb(a, flat, index, ind, parent, first, corrected, fuel);
            r.Some? && r.value.Ok? ==>
              (forall x :: x in r.value.value.flat ==> x in flat)
              && (corrected ==> r.value.value.flat == FlatAfter(flat, index, first))
    decreases fuel, 1
  {
    match ParentNode(a, parent)
    case None =>
    case Some(p) =>
      match Unhook(a, p, ind)
      case Err(_) =>
      case Ok((a2, emptied)) =>
        FlatAfterSub(flat, index, first || !corrected);
        ProceedFlat(a2, p, FlatAfter(flat, index, first || !corrected), index, emptied, corrected, fuel);
  }

  /** The levels above take pages out of the flattened list only as
      written. */
  lemma {:induction false} ProceedFlat(a: Arena, p: Ref, flat: seq<Ref>, index: nat, emptied: bool, corrected: bool, fuel: nat)
    requires TreeObjects.IsNode(a, p)
    ensures var r := Proceed(a, p, flat, index, emptied, corrected, fuel);
            r.Some? && r.value.Ok? ==>
              (forall x :: x in r.value.value.flat ==> x in flat)
              && (corrected ==> r.value.value.flat == flat)
    decreases fuel, 0
  {
    var up := TreeObjects.Entries(a, p);
    if "/Parent" in up && emptied && fuel > 0 {
      ClimbFlat(a, flat, index, p, up["/Parent"], false, corrected, fuel - 1);
    }
  }

  /** `del pages[i]`: the index is normalised as `[]` does; a page
      without /Parent is left in place. */
  function DelIndex(d: Doc, i: int, corrected: bool, fuel: nat): (r: Option<Result<Doc>>)
    requires NoDirectParents(d.arena) && PagesAreNodes(d)
    ensures r.Some? && r.value.Ok? ==> NoDirectParents(r.value.value.arena) && PagesAreNodes(r.value.value)
    ensures r.Some? && r.value.Ok? ==> KeepsParents(d.arena, r.value.value.arena)
    ensures !(-|d.flat| <= i < |d.flat|) ==> r == Some(Err(IndexError))
    ensures corrected && r.Some? && r.value.Ok? && -|d.flat| <= i < |d.flat| ==>
              var j := if i < 0 then |d.flat| + i else i;
              r.value.value.flat
              == (if "/Parent" in TreeObjects.Entries(d.arena, d.flat[j]) then TreeObjects.Without(d.flat, j) else d.flat)
  {
    match Normalize(|d.flat|, i)
    case Err(x) => Some(Err(x))
    case Ok(j) =>
      var ind := d.flat[j];
      var e := TreeObjects.Entries(d.arena, ind);
      if "/Parent" !in e then Some(Ok(d))
      else
        var r := Climb(d.arena, d.flat, j, ind, e["/Parent"], true, corrected, fuel);
        ClimbKeeps(d.arena, d.flat, j, ind, e["/Parent"], true, corrected, fuel);
        ClimbFlat(d.arena, d.flat, j, ind, e["/Parent"], true, corrected, fuel);
        if r.Some? && r.value.Ok? then
          var d1 := r.value.value;
          KeepsNoDirectParents(d.arena, d1.arena);
          assert forall k :: 0 <= k < |d1.flat| ==> d1.flat[k] in d.flat;
          r
        else r
  }

  /** `del pages[sl]`: the positions of the slice, sorted and reversed,
      deleted one by one. */
  function DelAll(d: Doc, ps: seq<int>, corrected: bool, fuel: nat): (r: Option<Result<Doc>>)
    requires NoDirectParents(d.arena) && PagesAreNodes(d)
    decreases |ps|
  {
    if ps == [] then Some(Ok(d))
    else match DelIndex(d, ps[0], corrected, fuel)
      case None => None
      case Some(Err(x)) => Some(Err(x))
      case Some(Ok(d1)) => DelAll(d1, ps[1..], corrected, fuel)
  }

  /** `__delitem__`. */
  function DelItem(d: Doc, index: Index, corrected: bool, fuel: nat): (r: Option<Result<Doc>>)
    requires NoDirectParents(d.arena) && PagesAreNodes(d)
    ensures index.OtherIndex? ==> r == Some(Err(TypeError))
    ensures index.IntIndex? && !(-|d.flat| <= index.i < |d.flat|) ==> r == Some(Err(IndexError))
    ensures index.SliceIndex? && index.sl.step == Some(0) ==> r == Some(Err(ValueError))
  {
    match index
    case IntIndex(i) => DelIndex(d, i, corrected, fuel)
    case SliceIndex(sl) =>
      (match PageRanges.Pages(PageRanges.PageRange(sl), |d.flat|)
       case Err(x) => Some(Err(x))
       case Ok(ps) => DelAll(d, PyText.SortedDesc(ps), corrected, fuel))
    case OtherIndex => Some(Err(TypeError))
  }

  // ---------------------------------------------------------------------
  // Properties of the deletion
  // ---------------------------------------------------------------------

  /** `p` holds `kid` in a /Kids array stored in the dictionary itself. */
  predicate HoldsKid(a: Arena, p: Ref, kid: Ref)
  {
    TreeObjects.IsNode(a, p) && "/Kids" in TreeObjects.Entries(a, p)
    && TreeObjects.Entries(a, p)["/Kids"].Array?
    && Indirect(kid) in TreeObjects.Entries(a, p)["/Kids"].items
  }

  /** `ps` climbs from the parent of `page` to the root: each node is a
      dictionary with an integer /Count that holds the one below it among
      its kids and names the next as /Parent, the root has no /Parent,
      and no node comes back. */
  predicate Chain(a: Arena, page: Ref, ps: seq<Ref>)
    decreases |ps|
  {
    |ps| > 0 && page !in ps && TreeObjects.CountIsInt(a, ps[0]) && HoldsKid(a, ps[0], page)
    && if |ps| == 1 then TreeObjects.NoLink(a, ps[0], "/Parent")
       else TreeObjects.LinkIs(a, ps[0], "/Parent", ps[1]) && Chain(a, ps[0], ps[1..])
  }

  /** Every count on the chain is one lower in `b` than in `a`. */
  predicate Lowered(a: Arena, b: Arena, ps: seq<Ref>)
  {
    forall k :: 0 <= k < |ps| ==>
      TreeObjects.CountIsInt(a, ps[k]) && TreeObjects.CountIsInt(b, ps[k])
      && TreeObjects.Entries(b, ps[k])["/Count"].i == TreeObjects.Entries(a, ps[k])["/Count"].i - 1
  }

  /** `b` holds every object of `a` off the chain unchanged. */
  predicate OffChainSame(a: Arena, b: Arena, ps: seq<Ref>)
  {
    forall x :: x in a && x !in ps ==> x in b && b[x] == a[x]
  }

  /** A chain holds in an arena that agrees on its nodes. */
  lemma {:induction false} ChainFrame(a: Arena, b: Arena, page: Ref, ps: seq<Ref>)
    requires Chain(a, page, ps)
    requires forall k :: 0 <= k < |ps| ==> ps[k] in a && ps[k] in b && b[ps[k]] == a[ps[k]]
    ensures Chain(b, page, ps)
    decreases |ps|
  {
    assert ps[0] in b && b[ps[0]] == a[ps[0]];
    if |ps| > 1 {
      forall k | 0 <= k < |ps| - 1 ensures ps[1..][k] in a && ps[1..][k] in b && b[ps[1..][k]] == a[ps[1..][k]] {
        assert ps[1..][k] == ps[k + 1];
      }
      ChainFrame(a, b, ps[0], ps[1..]);
    }
  }

  /** The chain above its first node, in an arena that differs only at
      that node. */
  lemma ChainTail(a: Arena, b: Arena, page: Ref, ps: seq<Ref>)
    requires Chain(a, page, ps) && |ps| > 1
    requires b.Keys == a.Keys && forall x :: x in a && x != ps[0] ==> b[x] == a[x]
    ensures Chain(b, ps[0], ps[1..])
  {
    var t := ps[1..];
    assert Chain(a, ps[0], t);
    forall k | 0 <= k < |t| ensures t[k] in a && t[k] in b && b[t[k]] == a[t[k]] {
      assert t[k] in t && TreeObjects.IsNode(a, t[k]) by {
        ChainNodes(a, ps[0], t, k);
      }
    }
    ChainFrame(a, b, ps[0], t);
  }

  /** The nodes of a chain are dictionaries of the arena. */
  lemma {:induction false} ChainNodes(a: Arena, page: Ref, ps: seq<Ref>, k: nat)
    requires Chain(a, page, ps) && k < |ps|
    ensures TreeObjects.IsNode(a, ps[k]) && ps[k] != page
    decreases |ps|
  {
    if k > 0 {
      ChainNodes(a, ps[0], ps[1..], k - 1);
      assert ps[1..][k - 1] == ps[k];
    }
  }

  /** The counts below the first node, combined with the first. */
  lemma LoweredCons(a: Arena, a1: Arena, b: Arena, ps: seq<Ref>)
    requires |ps| > 0 && ps[0] !in ps[1..]
    requires TreeObjects.CountIsInt(a, ps[0]) && TreeObjects.CountIsInt(a1, ps[0])
    requires TreeObjects.Entries(a1, ps[0])["/Count"].i == TreeObjects.Entries(a, ps[0])["/Count"].i - 1
    requires a1.Keys == a.Keys && forall x :: x in a && x != ps[0] ==> a1[x] == a[x]
    requires Lowered(a1, b, ps[1..])
    requires OffChainSame(a1, b, ps[1..])
    ensures Lowered(a, b, ps)
  {
    assert ps[0] !in ps[1..];
    forall k | 0 < k < |ps| ensures TreeObjects.CountIsInt(a, ps[k])
      && TreeObjects.Entries(b, ps[k])["/Count"].i == TreeObjects.Entries(a, ps[k])["/Count"].i - 1
    {
      assert ps[k] == ps[1..][k - 1] && ps[k] != ps[0];
      assert a1[ps[k]] == a[ps[k]];
    }
  }

  /** The counts lowered on the chain above the first node, and the
      first node's own count lowered before, give every count lowered. */
  lemma LoweredUp(a: Arena, a2: Arena, b: Arena, ps: seq<Ref>)
    requires |ps| > 1 && ps[0] !in ps[1..]
    requires a2.Keys == a.Keys && forall x :: x in a && x != ps[0] ==> a2[x] == a[x]
    requires TreeObjects.CountIsInt(a, ps[0]) && TreeObjects.CountIsInt(a2, ps[0])
    requires TreeObjects.Entries(a2, ps[0])["/Count"].i == TreeObjects.Entries(a, ps[0])["/Count"].i - 1
    requires Lowered(a2, b, ps[1..])
    requires OffChainSame(a2, b, ps[1..])
    ensures Lowered(a, b, ps)
    ensures OffChainSame(a, b, ps)
  {
    LoweredCons(a, a2, b, ps);
    assert forall x :: x in a && x !in ps ==> x !in ps[1..] && x != ps[0];
  }

  /** Reference for the corrected continuation: the counts of `ps`
      lowered one node after the other. */
  function LowerChain(a: Arena, ps: seq<Ref>): Arena
    decreases |ps|
  {
    if ps == [] || !TreeObjects.IsNode(a, ps[0]) then a
    else match LowerCount(a, ps[0])
      case Err(_) => a
      case Ok(a1) => LowerChain(a1, ps[1..])
  }

  /** On a chain, lowering the counts one by one lowers each of them once
      and touches nothing else. */
  lemma {:induction false} LowerChainLowers(a: Arena, page: Ref, ps: seq<Ref>)
    requires Chain(a, page, ps)
    ensures Lowered(a, LowerChain(a, ps), ps) && OffChainSame(a, LowerChain(a, ps), ps)
    decreases |ps|
  {
    assert TreeObjects.CountIsInt(a, ps[0]);
    var a1 := LowerCount(a, ps[0]).value;
    assert LowerChain(a, ps) == LowerChain(a1, ps[1..]);
    if |ps| > 1 {
      ChainTail(a, a1, page, ps);
      LowerChainLowers(a1, ps[0], ps[1..]);
      LoweredUp(a, a1, LowerChain(a1, ps[1..]), ps);
    } else {
      assert ps[1..] == [];
    }
  }

  /** The continuation on the root of a chain stops there. */
  lemma CountAboveLast(a: Arena, page: Ref, ps: seq<Ref>, fuel: nat)
    requires Chain(a, page, ps) && |ps| == 1
    ensures CountAbove(a, Indirect(ps[0]), fuel) == Some(Ok(LowerChain(a, ps)))
  {
    assert TreeObjects.CountIsInt(a, ps[0]);
    assert LowerChain(a, ps) == LowerChain(LowerCount(a, ps[0]).value, []);
  }

  /** The continuation on a chain node below the root is the reference
      once it is the reference from the next node up. */
  lemma CountAboveNext(a: Arena, page: Ref, ps: seq<Ref>, fuel: nat)
    requires Chain(a, page, ps) && |ps| > 1 && fuel > 0
    requires var a1 := LowerCount(a, ps[0]);
             a1.Ok? && CountAbove(a1.value, Indirect(ps[1]), fuel - 1) == Some(Ok(LowerChain(a1.value, ps[1..])))
    ensures CountAbove(a, Indirect(ps[0]), fuel) == Some(Ok(LowerChain(a, ps)))
  {
    assert TreeObjects.LinkIs(a, ps[0], "/Parent", ps[1]);
  }

  /** The node above the first one of a chain heads a chain once its
      count is lowered. */
  lemma LowerCountChain(a: Arena, page: Ref, ps: seq<Ref>)
    requires Chain(a, page, ps) && |ps| > 1
    ensures LowerCount(a, ps[0]).Ok? && Chain(LowerCount(a, ps[0]).value, ps[0], ps[1..])
  {
    assert TreeObjects.CountIsInt(a, ps[0]);
    var a1 := LowerCount(a, ps[0]).value;
    assert ParentEntry(a1[ps[0]]) == ParentEntry(a[ps[0]]);
    ChainTail(a, a1, page, ps);
  }

  /** Corrected, the continuation along a chain is the reference. */
  lemma {:induction false} CountAboveIs(a: Arena, page: Ref, ps: seq<Ref>, fuel: nat)
    requires Chain(a, page, ps) && |ps| <= fuel + 1
    ensures CountAbove(a, Indirect(ps[0]), fuel) == Some(Ok(LowerChain(a, ps)))
    decreases |ps|
  {
    if |ps| == 1 {
      CountAboveLast(a, page, ps, fuel);
    } else {
      LowerCountChain(a, page, ps);
      var a1 := LowerCount(a, ps[0]).value;
      CountAboveIs(a1, ps[0], ps[1..], fuel - 1);
      assert ps[1..][0] == ps[1];
      CountAboveNext(a, page, ps, fuel);
    }
  }

  /** The corrected continuation lowers the /Count of every node of the
      chain and changes no other object. */
  lemma CountAboveLowers(a: Arena, page: Ref, ps: seq<Ref>, fuel: nat)
    requires Chain(a, page, ps) && |ps| <= fuel + 1
    ensures var r := CountAbove(a, Indirect(ps[0]), fuel);
            r.Some? && r.value.Ok? && Lowered(a, r.value.value, ps) && OffChainSame(a, r.value.value, ps)
  {
    CountAboveIs(a, page, ps, fuel);
    LowerChainLowers(a, page, ps);
  }

  /** In `b` the first `kid` has left the /Kids array stored in `p`, and
      the entries of `p` other than /Kids and /Count read as in `a`. */
  predicate KidRemoved(a: Arena, b: Arena, p: Ref, kid: Ref)
    requires HoldsKid(a, p, kid)
  {
    TreeObjects.IsNode(b, p) && "/Kids" in TreeObjects.Entries(b, p)
    && TreeObjects.Entries(b, p)["/Kids"] == Array(RemoveFirst(TreeObjects.Entries(a, p)["/Kids"].items, Indirect(kid)))
    && TreeObjects.Entries(b, p) - {"/Kids", "/Count"} == TreeObjects.Entries(a, p) - {"/Kids", "/Count"}
  }

  /** One level on a chain node: the page leaves its direct /Kids array,
      the count drops, nothing else changes, and the flag tells whether
      the page was the only kid. */
  lemma UnhookOnChain(a: Arena, p: Ref, kid: Ref)
    requires HoldsKid(a, p, kid) && TreeObjects.CountIsInt(a, p)
    ensures var r := Unhook(a, p, kid);
            r.Ok? && KidRemoved(a, r.value.0, p, kid)
            && r.value.0.Keys == a.Keys && (forall x :: x in a && x != p ==> r.value.0[x] == a[x])
            && TreeObjects.CountIsInt(r.value.0, p)
            && TreeObjects.Entries(r.value.0, p)["/Count"].i == TreeObjects.Entries(a, p)["/Count"].i - 1
            && ParentEntry(r.value.0[p]) == ParentEntry(a[p])
            && (r.value.1 <==> |TreeObjects.Entries(a, p)["/Kids"].items| == 1)
  {
    var kids := TreeObjects.Entries(a, p)["/Kids"].items;
    var i := IndexOf(kids, Indirect(kid)).value;
    var rest := kids[..i] + kids[i + 1..];
    assert |rest| == |kids| - 1;
    var a1 := TreeObjects.Put(a, p, "/Kids", Array(rest));
    assert TreeObjects.Entries(a1, p) == TreeObjects.Entries(a, p)["/Kids" := Array(rest)];
    assert TreeObjects.CountIsInt(a1, p);
  }

  /** Corrected, once a node of the chain keeps kids the counts above it
      are lowered and nothing else changes. */
  lemma ProceedKept(a: Arena, ps: seq<Ref>, flat: seq<Ref>, index: nat, fuel: nat)
    requires 1 < |ps| <= fuel + 1
    requires TreeObjects.LinkIs(a, ps[0], "/Parent", ps[1]) && Chain(a, ps[0], ps[1..])
    ensures var r := Proceed(a, ps[0], flat, index, false, true, fuel);
            r.Some? && r.value.Ok? && r.value.value.flat == flat
            && Lowered(a, r.value.value.arena, ps[1..]) && OffChainSame(a, r.value.value.arena, ps[1..])
  {
    assert ps[1..][0] == ps[1];
    CountAboveLowers(a, ps[0], ps[1..], fuel);
  }

  /** Corrected, the climb from a page's parent that keeps other kids (or
      is the root) lowers the /Count of every ancestor up to the root,
      changes no object off the chain, and the page leaves the flattened
      list at the first level only. */
  lemma ClimbLowers(a: Arena, flat: seq<Ref>, index: nat, page: Ref, ps: seq<Ref>, first: bool, fuel: nat)
    requires Chain(a, page, ps) && |ps| <= fuel + 1
    requires |ps| == 1 || 1 < |TreeObjects.Entries(a, ps[0])["/Kids"].items|
    ensures var r := Climb(a, flat, index, page, Indirect(ps[0]), first, true, fuel);
            r.Some? && r.value.Ok? && r.value.value.flat == FlatAfter(flat, index, first)
            && Lowered(a, r.value.value.arena, ps) && OffChainSame(a, r.value.value.arena, ps)
            && KidRemoved(a, r.value.value.arena, ps[0], page)
  {
    var p := ps[0];
    UnhookOnChain(a, p, page);
    assert ParentNode(a, Indirect(p)) == Some(p);
    var u := Unhook(a, p, page).value;
    var flat1 := FlatAfter(flat, index, first);
    if |ps| > 1 {
      assert TreeObjects.LinkIs(a, p, "/Parent", ps[1]);
      ChainTail(a, u.0, page, ps);
      ProceedKept(u.0, ps, flat1, index, fuel);
      var b := Proceed(u.0, p, flat1, index, false, true, fuel).value.value.arena;
      LoweredUp(a, u.0, b, ps);
      assert p !in ps[1..] && b[p] == u.0[p];
    } else {
      assert TreeObjects.NoLink(u.0, p, "/Parent");
    }
  }

  /** Corrected, `del pages[i]` of a page whose ancestors form a chain,
      and whose parent keeps other kids, takes exactly that page out of
      the flattened list, lowers the /Count of every ancestor and changes
      nothing off the chain. */
  lemma DelIndexLowers(d: Doc, i: nat, ps: seq<Ref>, fuel: nat)
    requires NoDirectParents(d.arena) && PagesAreNodes(d) && i < |d.flat|
    requires Chain(d.arena, d.flat[i], ps) && TreeObjects.LinkIs(d.arena, d.flat[i], "/Parent", ps[0])
    requires |ps| == 1 || 1 < |TreeObjects.Entries(d.arena, ps[0])["/Kids"].items|
    requires |ps| <= fuel + 1
    ensures var r := DelIndex(d, i, true, fuel);
            r.Some? && r.value.Ok? && r.value.value.flat == TreeObjects.Without(d.flat, i)
            && Lowered(d.arena, r.value.value.arena, ps) && OffChainSame(d.arena, r.value.value.arena, ps)
            && KidRemoved(d.arena, r.value.value.arena, ps[0], d.flat[i])
  {
    ClimbLowers(d.arena, d.flat, i, d.flat[i], ps, true, fuel);
  }


  /** A page its parent does not list among its kids cannot be deleted:
      PdfReadError, as the library reports the failed `index`; a parent
      without /Kids fails the lookup with KeyError. */
  lemma DelIndexNotKid(d: Doc, i: nat, q: Ref, corrected: bool, fuel: nat)
    requires NoDirectParents(d.arena) && PagesAreNodes(d) && i < |d.flat|
    requires TreeObjects.LinkIs(d.arena, d.flat[i], "/Parent", q) && TreeObjects.IsNode(d.arena, q)
    ensures "/Kids" !in TreeObjects.Entries(d.arena, q) ==> DelIndex(d, i, corrected, fuel) == Some(Err(KeyError))
    ensures KidsOf(d.arena, q).Some? && Indirect(d.flat[i]) !in KidsOf(d.arena, q).value ==>
              DelIndex(d, i, corrected, fuel) == Some(Err(PdfReadError))
  {
    DelIndexClimbs(d, i, corrected, fuel);
    assert ParentNode(d.arena, Indirect(q)) == Some(q);
  }

  // ---------------------------------------------------------------------
  // Two trees where the loop as written goes wrong
  // ---------------------------------------------------------------------

  const RootRef := Ref(1, 0)
  const MidRef := Ref(2, 0)
  const FirstPage := Ref(3, 0)
  const SecondPage := Ref(4, 0)

  /** A root over an intermediate node with one page, and a second page
      straight under the root. */
  const LopsidedTree: Doc := Doc(map[
      RootRef := Dict(map["/Kids" := Array([Indirect(MidRef), Indirect(SecondPage)]), "/Count" := Int(2)]),
      MidRef := Dict(map["/Kids" := Array([Indirect(FirstPage)]), "/Count" := Int(1), "/Parent" := Indirect(RootRef)]),
      FirstPage := Dict(map["/Parent" := Indirect(MidRef)]),
      SecondPage := Dict(map["/Parent" := Indirect(RootRef)])],
    [FirstPage, SecondPage])

  lemma LopsidedTreeValid()
    ensures NoDirectParents(LopsidedTree.arena) && PagesAreNodes(LopsidedTree)
  {
    var a := LopsidedTree.arena;
    assert a.Keys == {RootRef, MidRef, FirstPage, SecondPage};
  }

  /** The two levels of the climb on the lopsided tree: the intermediate
      node loses its only kid, the root keeps one and has no parent. */
  lemma LopsidedLevels()
    ensures var a := LopsidedTree.arena;
            var u1 := Unhook(a, MidRef, FirstPage);
            u1.Ok? && u1.value.1 && TreeObjects.LinkIs(u1.value.0, MidRef, "/Parent", RootRef)
            && var u2 := Unhook(u1.value.0, RootRef, MidRef);
            u2.Ok? && !u2.value.1 && TreeObjects.NoLink(u2.value.0, RootRef, "/Parent")
  {
    var a := LopsidedTree.arena;
    UnhookOnChain(a, MidRef, FirstPage);
    var a1 := Unhook(a, MidRef, FirstPage).value.0;
    assert ParentEntry(a1[MidRef]) == ParentEntry(a[MidRef]);
    assert a1[RootRef] == a[RootRef];
    UnhookOnChain(a1, RootRef, MidRef);
    var a2 := Unhook(a1, RootRef, MidRef).value.0;
    assert ParentEntry(a2[RootRef]) == ParentEntry(a1[RootRef]);
  }

  /** A page with a /Parent starts the climb at that parent. */
  lemma DelIndexClimbs(d: Doc, i: nat, corrected: bool, fuel: nat)
    requires NoDirectParents(d.arena) && PagesAreNodes(d) && i < |d.flat|
    requires "/Parent" in TreeObjects.Entries(d.arena, d.flat[i])
    ensures DelIndex(d, i, corrected, fuel)
            == Climb(d.arena, d.flat, i, d.flat[i], TreeObjects.Entries(d.arena, d.flat[i])["/Parent"], true, corrected, fuel)
  {
  }

  /** Deleting the first page empties the intermediate node, so the loop
      climbs to the root; as written it deletes `flattened_pages[0]` a
      second time there and the second page leaves the list too.
      Corrected, only the deleted page leaves it. */
  lemma FlatCounterexample()
    ensures NoDirectParents(LopsidedTree.arena) && PagesAreNodes(LopsidedTree)
    ensures var r := DelIndex(LopsidedTree, 0, false, 1);
            r.Some? && r.value.Ok? && r.value.value.flat == []
    ensures var r := DelIndex(LopsidedTree, 0, true, 1);
            r.Some? && r.value.Ok? && r.value.value.flat == [SecondPage]
  {
    LopsidedTreeValid();
    LopsidedClimb(false);
    LopsidedClimb(true);
  }

  /** The climb on the lopsided tree, as written or corrected. */
  lemma LopsidedClimb(corrected: bool)
    ensures NoDirectParents(LopsidedTree.arena) && PagesAreNodes(LopsidedTree)
    ensures var r := DelIndex(LopsidedTree, 0, corrected, 1);
            r.Some? && r.value.Ok? && r.value.value.flat == if corrected then [SecondPage] else []
  {
    LopsidedTreeValid();
    DelIndexClimbs(LopsidedTree, 0, corrected, 1);
    LopsidedFirstLevel(corrected);
    LopsidedSecondLevel(corrected);
  }

  lemma LopsidedFirstLevel(corrected: bool)
    ensures Unhook(LopsidedTree.arena, MidRef, FirstPage).Ok?
    ensures var u1 := Unhook(LopsidedTree.arena, MidRef, FirstPage).value;
            Climb(LopsidedTree.arena, LopsidedTree.flat, 0, FirstPage, Indirect(MidRef), true, corrected, 1)
            == Climb(u1.0, [SecondPage], 0, MidRef, Indirect(RootRef), false, corrected, 0)
  {
    LopsidedLevels();
    assert TreeObjects.Without(LopsidedTree.flat, 0) == [SecondPage];
  }

  lemma LopsidedSecondLevel(corrected: bool)
    ensures Unhook(LopsidedTree.arena, MidRef, FirstPage).Ok?
    ensures var u1 := Unhook(LopsidedTree.arena, MidRef, FirstPage).value;
            var r := Climb(u1.0, [SecondPage], 0, MidRef, Indirect(RootRef), false, corrected, 0);
            r.Some? && r.value.Ok? && r.value.value.flat == if corrected then [SecondPage] else []
  {
    LopsidedLevels();
    var a1 := Unhook(LopsidedTree.arena, MidRef, FirstPage).value.0;
    var u2 := Unhook(a1, RootRef, MidRef).value;
    assert ParentNode(a1, Indirect(RootRef)) == Some(RootRef);
    assert TreeObjects.Without([SecondPage], 0) == [];
    assert Climb(a1, [SecondPage], 0, MidRef, Indirect(RootRef), false, corrected, 0)
           == Proceed(u2.0, RootRef, FlatAfter([SecondPage], 0, !corrected), 0, false, corrected, 0);
  }

  /** A root over one intermediate node that holds both pages. */
  const DeepTree: Doc := Doc(map[
      RootRef := Dict(map["/Kids" := Array([Indirect(MidRef)]), "/Count" := Int(2)]),
      MidRef := Dict(map["/Kids" := Array([Indirect(FirstPage), Indirect(SecondPage)]), "/Count" := Int(2),
                         "/Parent" := Indirect(RootRef)]),
      FirstPage := Dict(map["/Parent" := Indirect(MidRef)]),
      SecondPage := Dict(map["/Parent" := Indirect(MidRef)])],
    [FirstPage, SecondPage])

  lemma DeepTreeNodes()
    ensures NoDirectParents(DeepTree.arena) && PagesAreNodes(DeepTree)
  {
    assert DeepTree.arena.Keys == {RootRef, MidRef, FirstPage, SecondPage};
  }

  lemma DeepTreeValid()
    ensures NoDirectParents(DeepTree.arena) && PagesAreNodes(DeepTree)
    ensures Chain(DeepTree.arena, FirstPage, [MidRef, RootRef])
  {
    var a := DeepTree.arena;
    assert a.Keys == {RootRef, MidRef, FirstPage, SecondPage};
    assert [MidRef, RootRef][1..] == [RootRef];
    assert Chain(a, MidRef, [RootRef]);
  }

  /** Deleting the first page leaves the intermediate node one kid, so
      as written the loop stops there and the root still counts two
      pages over a tree that holds one. */
  lemma StaleCountCounterexample()
    ensures NoDirectParents(DeepTree.arena) && PagesAreNodes(DeepTree)
    ensures var r := DelIndex(DeepTree, 0, false, 1);
            r.Some? && r.value.Ok? && r.value.value.flat == [SecondPage]
            && TreeObjects.CountIsInt(r.value.value.arena, RootRef)
            && TreeObjects.Entries(r.value.value.arena, RootRef)["/Count"].i == 2
  {
    DeepTreeNodes();
    DelIndexClimbs(DeepTree, 0, false, 1);
    DeepFirstLevel();
  }

  /** As written, the climb on the deep tree stops at the intermediate
      node, which keeps a kid, before reaching the root. */
  lemma DeepFirstLevel()
    ensures Unhook(DeepTree.arena, MidRef, FirstPage).Ok?
    ensures var u1 := Unhook(DeepTree.arena, MidRef, FirstPage).value;
            Climb(DeepTree.arena, DeepTree.flat, 0, FirstPage, Indirect(MidRef), true, false, 1)
            == Some(Ok(Doc(u1.0, [SecondPage])))
            && u1.0[RootRef] == DeepTree.arena[RootRef]
  {
    var a := DeepTree.arena;
    assert TreeObjects.Without(DeepTree.flat, 0) == [SecondPage];
    assert KidsOf(a, MidRef) == Some([Indirect(FirstPage), Indirect(SecondPage)]);
    assert RemoveFirst([Indirect(FirstPage), Indirect(SecondPage)], Indirect(FirstPage)) == [Indirect(SecondPage)];
    UnhookFrame(a, MidRef, FirstPage);
    var u1 := Unhook(a, MidRef, FirstPage).value;
    assert u1.0[RootRef] == (a - {MidRef})[RootRef];
    assert Climb(a, DeepTree.flat, 0, FirstPage, Indirect(MidRef), true, false, 1)
           == Proceed(u1.0, MidRef, [SecondPage], 0, false, false, 1);
  }

  /** Corrected, the same deletion lowers the root's /Count to one. */
  lemma StaleCountCorrected()
    ensures var r := DelIndex(DeepTree, 0, true, 1);
            r.Some? && r.value.Ok? && r.value.value.flat == [SecondPage]
            && TreeObjects.CountIsInt(r.value.value.arena, RootRef)
            && TreeObjects.Entries(r.value.value.arena, RootRef)["/Count"].i == 1
  {
    DeepTreeValid();
    assert TreeObjects.Without(DeepTree.flat, 0) == [SecondPage];
    var ps := [MidRef, RootRef];
    DelIndexLowers(DeepTree, 0, ps, 1);
    assert ps[1] == RootRef;
  }
}
