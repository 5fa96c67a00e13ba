/** Fragments of `PdfWriter` (`pypdf/_writer.py`): the cross-reference
    table `_write` emits (section 7.5.4 of ISO 32000-1), the page-layout
    setter, the bookkeeping of `add_outline_item` (section 12.3.3), and
    how `merge` turns its `pages` argument into the pages to insert and
    where they go. */
module Writer {
  import opened PyBase
  import opened PdfObjects
  import opened PyText
  import TreeObjects
  import Reader
  import PageRanges
  import VirtualLists

  // ---------------------------------------------------------------------
  // _write: the cross-reference table
  // ---------------------------------------------------------------------

  function Pow10(k: nat): nat
  {
    if k == 0 then 1 else 10 * Pow10(k - 1)
  }

  /** A string of `k` zero digits. */
  function Zeros(k: nat): (r: string)
    ensures |r| == k && forall i :: 0 <= i < k ==> r[i] == '0'
  {
    if k == 0 then "" else Zeros(k - 1) + "0"
  }

  /** `f"{n:010d}"`: the decimal digits of `n`, zero-padded on the left to
      ten; longer numbers keep all their digits. */
  function Pad10(n: nat): string
  {
    Zeros(if |NatToString(n)| < 10 then 10 - |NatToString(n)| else 0) + NatToString(n)
  }

  /** Numbers below 10^k have at most k digits. */
  lemma {:induction false} NatToStringShort(n: nat, k: nat)
    requires 1 <= k && n < Pow10(k)
    ensures |NatToString(n)| <= k
    decreases k
  {
    if n >= 10 {
      assert Pow10(1) == 10;
      assert k >= 2;
      assert n / 10 < Pow10(k - 1);
      NatToStringShort(n / 10, k - 1);
    }
  }

  /** Leading zeros do not change a decimal value. */
  lemma {:induction false} LeadingZeros(z: nat, s: string)
    requires forall i :: 0 <= i < |s| ==> IsDigit(s[i])
    ensures forall i :: 0 <= i < |Zeros(z) + s| ==> IsDigit((Zeros(z) + s)[i])
    ensures DigitsValue(Zeros(z) + s) == DigitsValue(s)
    decreases |s| + z
  {
    var t := Zeros(z) + s;
    if s == [] {
      assert t == Zeros(z);
      if z > 0 {
        assert t[..|t| - 1] == Zeros(z - 1) + [];
        LeadingZeros(z - 1, []);
      }
    } else {
      assert t[..|t| - 1] == Zeros(z) + s[..|s| - 1];
      LeadingZeros(z, s[..|s| - 1]);
    }
  }

  /** Offsets with at most ten digits: below 10^10. */
  const OffsetLimit: nat := 10000000000

  /** The padded form is ten digits for numbers below 10^10, and its
      value is the number. */
  lemma Pad10Value(n: nat)
    ensures forall i :: 0 <= i < |Pad10(n)| ==> IsDigit(Pad10(n)[i])
    ensures DigitsValue(Pad10(n)) == n
    ensures n < OffsetLimit ==> |Pad10(n)| == 10
  {
    var z := if |NatToString(n)| < 10 then 10 - |NatToString(n)| else 0;
    LeadingZeros(z, NatToString(n));
    DigitsValueOfNatToString(n);
    if n < OffsetLimit {
      assert Pow10(10) == OffsetLimit;
      NatToStringShort(n, 10);
    }
  }

  /** The bytes of a string of decimal digits. */
  function DigitBytes(s: string): (r: seq<byte>)
    requires forall i :: 0 <= i < |s| ==> IsDigit(s[i])
    ensures |r| == |s| && forall i :: 0 <= i < |s| ==> r[i] == s[i] as int
  {
    if s == [] then [] else assert IsDigit(s[0]); [s[0] as int as byte] + DigitBytes(s[1..])
  }

  /** The fixed tail of every in-use entry, ` 00000 n \n`, after the ten
      offset digits. */
  const InUseTail: seq<byte> := [32, 48, 48, 48, 48, 48, 32, 110, 32, 10]

  /** `f"{offset:010d} 00000 n \n"`: the in-use entry of one object. */
  function XrefEntry(offset: nat): seq<byte>
  {
    Pad10Value(offset);
    DigitBytes(Pad10(offset)) + InUseTail
  }

  /** The characters of Latin-1 bytes. */
  function Chars(bs: seq<byte>): (r: string)
    ensures |r| == |bs| && forall i :: 0 <= i < |bs| ==> r[i] == bs[i] as char
  {
    if bs == [] then "" else [bs[0] as char] + Chars(bs[1..])
  }

  /** How a reader decodes one 20-byte in-use entry: ten digits of offset,
      then ` 00000 n` and the two-byte end of line. */
  function EntryOffset(e: seq<byte>): (r: Option<nat>)
    ensures r.Some? ==> |e| == 20 && e[10..] == InUseTail
  {
    if |e| == 20 && e[10..] == InUseTail && forall i :: 0 <= i < 10 ==> IsDigit(e[i] as char) then
      Some(DigitsValue(Chars(e[..10])))
    else None
  }

  /** Every offset below 10^10 gives a 20-byte entry that decodes back to
      it. */
  lemma XrefEntryRoundTrip(offset: nat)
    requires offset < OffsetLimit
    ensures |XrefEntry(offset)| == 20
    ensures EntryOffset(XrefEntry(offset)) == Some(offset)
  {
    Pad10Value(offset);
    var e := XrefEntry(offset);
    var d := DigitBytes(Pad10(offset));
    assert e[..10] == d;
    assert e[10..] == InUseTail;
    assert Chars(d) == Pad10(offset);
  }

  /** `0000000000 65535 f \n`: the head of the free list, object 0. */
  const FreeEntry: seq<byte> := [48, 48, 48, 48, 48, 48, 48, 48, 48, 48, 32, 54, 53, 53, 51, 53, 32, 102, 32, 10]

  /** `xref\n`: the keyword line that opens the table. */
  const XrefLine: seq<byte> := [120, 114, 101, 102, 10]

  /** Byte strings written one after the other. */
  function Concat(parts: seq<seq<byte>>): seq<byte>
  {
    if parts == [] then [] else parts[0] + Concat(parts[1..])
  }

  lemma MulStep(w: nat, k: nat, n: nat)
    requires k < n
    ensures w * k + w <= w * n
  {
    assert w * k + w == w * (k + 1);
    assert w * (k + 1) <= w * n by {
      assert w * n == w * (k + 1) + w * (n - k - 1);
    }
  }

  /** When every part is `w` bytes long, part `k` is the `w` bytes at
      `w * k`. */
  lemma {:induction false} ConcatAt(parts: seq<seq<byte>>, w: nat, k: nat)
    requires k < |parts|
    requires forall i :: 0 <= i < |parts| ==> |parts[i]| == w
    ensures |Concat(parts)| == w * |parts|
    ensures w * k + w <= w * |parts|
    ensures Concat(parts)[w * k..w * k + w] == parts[k]
    decreases |parts|
  {
    MulStep(w, k, |parts|);
    var rest := Concat(parts[1..]);
    if |parts| == 1 {
      assert rest == [];
    } else {
      ConcatAt(parts[1..], w, if k > 0 then k - 1 else 0);
    }
    if k > 0 {
      assert parts[1..][k - 1] == parts[k];
      assert w * k == w + w * (k - 1);
      assert (parts[0] + rest)[w * k..w * k + w] == rest[w * (k - 1)..w * (k - 1) + w];
    }
  }

  /** The in-use entries, one per object, in object order. */
  function Entries(offsets: seq<nat>): (r: seq<seq<byte>>)
    ensures |r| == |offsets| && forall i :: 0 <= i < |offsets| ==> r[i] == XrefEntry(offsets[i])
  {
    if offsets == [] then [] else [XrefEntry(offsets[0])] + Entries(offsets[1..])
  }

  /** The subsection header `0 n+1\n`: the first object number and the
      number of entries, the free one included. */
  function SubsectionLine(n: nat): seq<byte>
  {
    [48, 32] + DigitBytes(NatToString(n + 1)) + [10]
  }

  /** The table `_write` emits: the `xref` keyword, the subsection header,
      the free entry, and the in-use entries. */
  function XrefSection(offsets: seq<nat>): seq<byte>
  {
    XrefLine + SubsectionLine(|offsets|) + FreeEntry + Concat(Entries(offsets))
  }

  /** Where entry `k` (object `k + 1`) starts in the table. */
  function EntryStart(offsets: seq<nat>, k: nat): nat
  {
    5 + |SubsectionLine(|offsets|)| + 20 + 20 * k
  }

  /** A reader can go straight to the entry of any object: the 20 bytes at
      `EntryStart` decode to that object's offset (the random access the
      fixed entry size is for). */
  lemma TableLookup(offsets: seq<nat>, k: nat)
    requires k < |offsets|
    requires forall i :: 0 <= i < |offsets| ==> offsets[i] < OffsetLimit
    ensures |XrefSection(offsets)| == EntryStart(offsets, |offsets|)
    ensures EntryOffset(XrefSection(offsets)[EntryStart(offsets, k)..EntryStart(offsets, k) + 20]) == Some(offsets[k])
  {
    var es := Entries(offsets);
    forall i | 0 <= i < |es| ensures |es[i]| == 20 {
      XrefEntryRoundTrip(offsets[i]);
    }
    ConcatAt(es, 20, k);
    XrefEntryRoundTrip(offsets[k]);
    var pre := XrefLine + SubsectionLine(|offsets|) + FreeEntry;
    var e := Concat(es);
    assert |pre| == EntryStart(offsets, 0);
    assert XrefSection(offsets) == pre + e;
    SliceAfter(pre, e, 20 * k, 20 * k + 20);
  }

  /** Slicing past a prefix slices what follows it. */
  lemma SliceAfter(pre: seq<byte>, e: seq<byte>, i: nat, j: nat)
    requires i <= j <= |e|
    ensures (pre + e)[|pre| + i..|pre| + j] == e[i..j]
  {
  }

  /** An object as `_write` sees it: its serialised bytes and the offset
      recorded for it while writing. */
  datatype Written = Written(bytes: seq<byte>, offset: nat)

  function Bodies(objs: seq<Written>): (r: seq<seq<byte>>)
    ensures |r| == |objs| && forall i :: 0 <= i < |objs| ==> r[i] == objs[i].bytes
  {
    if objs == [] then [] else [objs[0].bytes] + Bodies(objs[1..])
  }

  function Offsets(objs: seq<Written>): (r: seq<nat>)
    ensures |r| == |objs| && forall i :: 0 <= i < |objs| ==> r[i] == objs[i].offset
  {
    if objs == [] then [] else [objs[0].offset] + Offsets(objs[1..])
  }

  /** `_write` up to the trailer: the header line, every object, then the
      table; the second component is `xref_location`. */
  function Write(header: seq<byte>, objs: seq<Written>): (r: (seq<byte>, nat))
    ensures r.1 <= |r.0|
    ensures r.0[..r.1] == header + [10] + Concat(Bodies(objs))
    ensures r.0[r.1..] == XrefSection(Offsets(objs))
  {
    var body := header + [10] + Concat(Bodies(objs));
    var table := XrefSection(Offsets(objs));
    assert (body + table)[..|body|] == body;
    assert (body + table)[|body|..] == table;
    (body + table, |body|)
  }

  /** The first five bytes at `xref_location` are the keyword line. */
  lemma WrittenKeyword(header: seq<byte>, objs: seq<Written>)
    ensures var (out, loc) := Write(header, objs);
            loc + 5 <= |out| && out[loc..loc + 5] == XrefLine
  {
    var (out, loc) := Write(header, objs);
    var table := XrefSection(Offsets(objs));
    assert out[loc..] == table;
    assert table[..5] == XrefLine;
    assert out[loc..loc + 5] == table[..5];
  }

  /** The table `_write` emits starts `xref\n`, so the reader's probe,
      which wants `xref ` with a space, flags it as issue 1. */
  lemma WrittenTableFlagged(header: seq<byte>, objs: seq<Written>)
    ensures var (out, loc) := Write(header, objs);
            Reader.XrefIssues(out, loc) == Ok(1)
  {
    WrittenKeyword(header, objs);
    var (out, loc) := Write(header, objs);
    assert out[loc..loc + 5][4] != Reader.XrefProbe[4];
  }

  /** `xref`: the keyword alone. */
  const XrefKeyword: seq<byte> := [120, 114, 101, 102]

  /** The probe with the keyword followed by either end-of-line byte or a
      space, as section 7.5.4 of ISO 32000-1 puts the keyword on a line of
      its own. */
  function XrefIssuesCorrected(data: seq<byte>, startxref: int): (r: Result<int>)
    ensures startxref < 0 <==> r.Err?
    ensures r.Ok? ==> (r.value == 0 <==> (OccursAt(data, XrefKeyword, startxref)
                                          && startxref + 4 < |data| && data[startxref + 4] in {10, 13, 32}))
  {
    if startxref < 0 then Err(ValueError)
    else if startxref + 5 <= |data| && data[startxref..startxref + 4] == XrefKeyword
            && data[startxref + 4] in {10, 13, 32} then Ok(0)
    else Ok(1)
  }

  /** The corrected probe accepts the table `_write` emits. */
  lemma WrittenTableAccepted(header: seq<byte>, objs: seq<Written>)
    ensures var (out, loc) := Write(header, objs);
            XrefIssuesCorrected(out, loc) == Ok(0)
  {
    WrittenKeyword(header, objs);
    var (out, loc) := Write(header, objs);
    assert out[loc..loc + 4] == out[loc..loc + 5][..4];
    assert out[loc + 4] == out[loc..loc + 5][4];
  }

  // ---------------------------------------------------------------------
  // set_page_layout
  // ---------------------------------------------------------------------

  /** `_valid_layouts`: the /PageLayout names of Table 28 of ISO 32000-1. */
  const ValidLayouts: seq<string> :=
    ["/NoLayout", "/SinglePage", "/OneColumn", "/TwoColumnLeft", "/TwoColumnRight", "/TwoPageLeft", "/TwoPageRight"]

  /** The argument: a NameObject, a plain string, or anything else. */
  datatype LayoutArg = NameLayout(name: string) | StrLayout(s: string) | OtherLayout

  /** `set_page_layout(layout)`: a NameObject is stored as it is, checked
      against nothing; any other argument must be one of the valid names
      and is stored as a name, or ValueError. */
  function SetPageLayout(root: map<string, Obj>, layout: LayoutArg): (r: Result<map<string, Obj>>)
    ensures r.Err? <==> layout.OtherLayout? || (layout.StrLayout? && layout.s !in ValidLayouts)
    ensures r.Err? ==> r.exc == ValueError
    ensures r.Ok? ==> r.value.Keys == root.Keys + {"/PageLayout"}
                      && r.value["/PageLayout"] == Name(if layout.NameLayout? then layout.name else layout.s)
                      && forall k :: k in root && k != "/PageLayout" ==> r.value[k] == root[k]
  {
    match layout
    case NameLayout(n) => Ok(root["/PageLayout" := Name(n)])
    case StrLayout(s) => if s !in ValidLayouts then Err(ValueError) else Ok(root["/PageLayout" := Name(s)])
    case OtherLayout => Err(ValueError)
  }

  /** The last layout set wins, whatever was set before. */
  lemma SetPageLayoutTwice(root: map<string, Obj>, first: LayoutArg, second: LayoutArg)
    requires SetPageLayout(root, first).Ok?
    ensures SetPageLayout(SetPageLayout(root, first).value, second) == SetPageLayout(root, second)
  {
    var once := SetPageLayout(root, first).value;
    var r1 := SetPageLayout(once, second);
    var r2 := SetPageLayout(root, second);
    if r2.Ok? {
      assert r1.value == r2.value;
    }
  }

  // ---------------------------------------------------------------------
  // add_outline_item
  // ---------------------------------------------------------------------

  /** What the new item shows: its title, its destination (built by the
      caller from the page number and the fit), an optional colour, the
      style flags and whether it starts open. */
  datatype Style = Style(title: string, dest: Obj, color: Option<seq<real>>, bold: bool, italic: bool, isOpen: bool)

  function Floats(cs: seq<real>): (r: seq<Obj>)
    ensures |r| == |cs| && forall i :: 0 <= i < |cs| ==> r[i] == Float(cs[i])
  {
    if cs == [] then [] else [Float(cs[0])] + Floats(cs[1..])
  }

  /** The new item's own entries: /Title, /Dest, /C when the colour array
      is non-empty, /F when bold or italic, /Count 1 when open. */
  function ItemEntries(st: Style): (r: map<string, Obj>)
    ensures r.Keys <= {"/Title", "/Dest", "/C", "/F", "/Count"}
    ensures "/Next" !in r && "/Prev" !in r
    ensures "/Title" in r && r["/Title"] == Text(st.title) && "/Dest" in r && r["/Dest"] == st.dest
    ensures "/C" in r <==> st.color.Some? && st.color.value != []
    ensures "/F" in r <==> st.bold || st.italic
    ensures "/F" in r ==> r["/F"].Int? && 0 <= r["/F"].i < 4
                          && (r["/F"].i % 2 == 1 <==> st.italic) && (r["/F"].i / 2 == 1 <==> st.bold)
    ensures "/Count" in r <==> st.isOpen
    ensures "/Count" in r ==> r["/Count"] == Int(1)
  {
    var e := map["/Title" := Text(st.title), "/Dest" := st.dest];
    var e1 := if st.color.Some? && st.color.value != [] then e["/C" := Array(Floats(st.color.value))] else e;
    var flag := (if st.bold then 2 else 0) + (if st.italic then 1 else 0);
    var e2 := if st.bold || st.italic then e1["/F" := Int(flag)] else e1;
    if st.isOpen then e2["/Count" := Int(1)] else e2
  }

  /** The parent the item goes under: the given node, or the catalog's
      /Outlines, created as an empty tree at `spare` when absent.  A
      parent that is not a dictionary cannot take the `in` test. */
  function OutlineParent(a: Arena, root: Ref, parent: Option<Ref>, spare: Ref): (r: Result<(Arena, Ref)>)
    requires TreeObjects.IsNode(a, root) && spare !in a
    ensures r.Err? ==> r.exc == TypeError
    ensures r.Ok? ==> TreeObjects.IsNode(r.value.0, r.value.1) && TreeObjects.IsNode(r.value.0, root)
                      && r.value.0.Keys <= a.Keys + {spare}
                      && forall x :: x in a && x != root ==> x in r.value.0 && r.value.0[x] == a[x]
    ensures parent.Some? ==> (r.Ok? <==> TreeObjects.IsNode(a, parent.value))
                             && (r.Ok? ==> r.value == (a, parent.value))
    ensures parent.None? && "/Outlines" !in TreeObjects.Entries(a, root) ==>
              r.Ok? && r.value.1 == spare && TreeObjects.Entries(r.value.0, spare) == map[]
              && TreeObjects.Entries(r.value.0, root) == TreeObjects.Entries(a, root)["/Outlines" := Indirect(spare)]
  {
    match parent
    case Some(p) => if TreeObjects.IsNode(a, p) then Ok((a, p)) else Err(TypeError)
    case None =>
      var re := TreeObjects.Entries(a, root);
      if "/Outlines" !in re then
        var b := a[spare := Dict(map[])];
        Ok((TreeObjects.Put(b, root, "/Outlines", Indirect(spare)), spare))
      else
        var o := re["/Outlines"];
        if o.Indirect? && TreeObjects.IsNode(a, o.ref) then Ok((a, o.ref)) else Err(TypeError)
  }

  /** `parent["/Count"] = NumberObject(parent["/Count"] + 1)`, the count
      first set to 0 when absent. */
  function IncrementCount(a: Arena, p: Ref): (r: Result<Arena>)
    requires TreeObjects.IsNode(a, p)
    ensures r.Err? ==> r.exc == TypeError
    ensures r.Ok? ==> r.value.Keys == a.Keys && (forall x :: x in a && x != p ==> r.value[x] == a[x])
                      && TreeObjects.IsNode(r.value, p)
                      && TreeObjects.Entries(r.value, p) - {"/Count"} == TreeObjects.Entries(a, p) - {"/Count"}
                      && "/Count" in TreeObjects.Entries(r.value, p)
    ensures "/Count" !in TreeObjects.Entries(a, p) ==> r.Ok? && TreeObjects.Entries(r.value, p)["/Count"] == Int(1)
    ensures "/Count" in TreeObjects.Entries(a, p) && GetObject(a, TreeObjects.Entries(a, p)["/Count"]).Int? ==>
              r.Ok? && TreeObjects.Entries(r.value, p)["/Count"] == Int(GetObject(a, TreeObjects.Entries(a, p)["/Count"]).i + 1)
  {
    var e := TreeObjects.Entries(a, p);
    if "/Count" !in e then Ok(TreeObjects.Put(a, p, "/Count", Int(1)))
    else match GetObject(a, e["/Count"])
      case Int(i) => Ok(TreeObjects.Put(a, p, "/Count", Int(i + 1)))
      case Float(x) => Ok(TreeObjects.Put(a, p, "/Count", Int(TreeObjects.Trunc(x + 1.0))))
      case _ => Err(TypeError)
  }

  /** Removing the node again undoes the increment: `_remove_node_from_tree`
      takes an integer count back to what it was. */
  lemma IncrementThenDecrement(a: Arena, p: Ref)
    requires TreeObjects.CountIsInt(a, p)
    ensures IncrementCount(a, p).Ok?
    ensures var b := TreeObjects.DecrementCount(IncrementCount(a, p).value, p);
            b.Ok? && b.value == a
  {
    var b := IncrementCount(a, p).value;
    var c := TreeObjects.DecrementCount(b, p).value;
    assert TreeObjects.Entries(c, p) == TreeObjects.Entries(a, p);
    assert c[p] == a[p];
  }

  /** The links of the new item: at the end of the children when `before`
      is None, otherwise just before `before`.  Gives the arena with the
      neighbours and the parent relinked, and the item's entries.  As
      written, appending sets only the parent's /Last (and /First when
      absent), and inserting before a node with no /Prev stores None,
      which a dictionary refuses with ValueError; `corrected` links the
      old last child both ways, and makes the item the parent's /First
      when it goes before the first child. */
  function Link(b: Arena, p: Ref, before: Option<Ref>, item: Ref, e: map<string, Obj>, corrected: bool)
    : (r: Result<(Arena, map<string, Obj>)>)
    requires TreeObjects.IsNode(b, p) && item !in b
  {
    match before
    case None =>
      var pe := TreeObjects.Entries(b, p);
      var last := if "/Last" in pe then pe["/Last"] else Null;
      var hooked := corrected && last.Indirect? && TreeObjects.IsNode(b, last.ref);
      var b0 := if hooked then TreeObjects.Put(b, last.ref, "/Next", Indirect(item)) else b;
      var e0 := if hooked then e["/Prev" := last] else e;
      var b1 := TreeObjects.Put(b0, p, "/Last", Indirect(item));
      var b2 := if "/First" !in TreeObjects.Entries(b1, p) then TreeObjects.Put(b1, p, "/First", Indirect(item)) else b1;
      Ok((b2, e0))
    case Some(bf) =>
      if !TreeObjects.IsNode(b, bf) then Err(AttributeError)
      else
        var e1 := e["/Next" := Indirect(bf)];
        var be := TreeObjects.Entries(b, bf);
        if "/Prev" !in be then
          if !corrected then Err(ValueError)
          else
            var b1 := TreeObjects.Put(b, p, "/First", Indirect(item));
            Ok((TreeObjects.Put(b1, bf, "/Prev", Indirect(item)), e1))
        else
          var pv := be["/Prev"];
          if !(pv.Indirect? && TreeObjects.IsNode(b, pv.ref)) then Err(TypeError)
          else
            var b1 := TreeObjects.Put(b, pv.ref, "/Next", Indirect(item));
            Ok((TreeObjects.Put(b1, bf, "/Prev", Indirect(item)), e1["/Prev" := pv]))
  }

  /** `add_outline_item`: the new item is stored at `item`, a new /Outlines
      tree at `spare`. */
  function AddOutlineItem(a: Arena, root: Ref, st: Style, parent: Option<Ref>, before: Option<Ref>,
                          item: Ref, spare: Ref, corrected: bool): (r: Result<Arena>)
    requires TreeObjects.IsNode(a, root) && item !in a && spare !in a && item != spare
    ensures r.Ok? ==> item in r.value && r.value.Keys <= a.Keys + {item, spare}
  {
    var bp :- OutlineParent(a, root, parent, spare);
    var c :- IncrementCount(bp.0, bp.1);
    var de :- Link(c, bp.1, before, item, ItemEntries(st), corrected);
    Ok(Attach(de.0, item, de.1, bp.1))
  }

  /** `outline_item["/Parent"] = parent` and `_add_object(outline_item)`:
      the item, with its links, stored at `item`. */
  function Attach(b: Arena, item: Ref, e: map<string, Obj>, p: Ref): (d: Arena)
    ensures d.Keys == b.Keys + {item} && forall x :: x in b && x != item ==> d[x] == b[x]
    ensures TreeObjects.IsNode(d, item) && TreeObjects.Entries(d, item) == e["/Parent" := Indirect(p)]
  {
    b[item := Dict(e["/Parent" := Indirect(p)])]
  }

  /** The parent's count can take the increment: absent or an integer. */
  predicate CountOk(a: Arena, p: Ref)
  {
    TreeObjects.IsNode(a, p)
    && ("/Count" in TreeObjects.Entries(a, p) ==> TreeObjects.Entries(a, p)["/Count"].Int?)
  }

  /** The parent's count after one more child. */
  function CountAfter(a: Arena, p: Ref): int
    requires CountOk(a, p)
  {
    if "/Count" in TreeObjects.Entries(a, p) then TreeObjects.Entries(a, p)["/Count"].i + 1 else 1
  }

  /** `ns` with `item` put at `k`. */
  function InsertAt(ns: seq<Ref>, k: nat, item: Ref): (r: seq<Ref>)
    requires k <= |ns|
    ensures |r| == |ns| + 1
    ensures forall i :: 0 <= i < |r| ==> r[i] == if i < k then ns[i] else if i == k then item else ns[i - 1]
  {
    ns[..k] + [item] + ns[k..]
  }

  /** The nodes of `ns` other than those at `k - 1` and `k` read the same
      in `d` as in `a`. */
  predicate KeepsOthers(a: Arena, d: Arena, ns: seq<Ref>, k: nat)
  {
    forall i :: 0 <= i < |ns| && i != k && i + 1 != k ==>
      TreeObjects.IsNode(d, ns[i]) && ns[i] in a && TreeObjects.IsNode(a, ns[i])
      && TreeObjects.Entries(d, ns[i]) == TreeObjects.Entries(a, ns[i])
  }

  /** After an insertion every child, the new one included, names the
      parent. */
  lemma InsertParents(a: Arena, d: Arena, p: Ref, ns: seq<Ref>, k: nat, item: Ref)
    requires TreeObjects.WellLinked(a, p, ns) && k < |ns| && KeepsOthers(a, d, ns, k)
    requires TreeObjects.IsNode(d, ns[k])
             && TreeObjects.Entries(d, ns[k]) == TreeObjects.Entries(a, ns[k])["/Prev" := Indirect(item)]
    requires k > 0 ==> TreeObjects.IsNode(d, ns[k - 1])
                       && TreeObjects.Entries(d, ns[k - 1]) == TreeObjects.Entries(a, ns[k - 1])["/Next" := Indirect(item)]
    requires TreeObjects.LinkIs(d, item, "/Parent", p)
    ensures forall i :: 0 <= i < |ns| + 1 ==> TreeObjects.LinkIs(d, InsertAt(ns, k, item)[i], "/Parent", p)
  {
    var ns' := InsertAt(ns, k, item);
    forall i | 0 <= i < |ns'| ensures TreeObjects.LinkIs(d, ns'[i], "/Parent", p) {
      if i < k {
        assert TreeObjects.LinkIs(a, ns[i], "/Parent", p);
      } else if i > k {
        assert TreeObjects.LinkIs(a, ns[i - 1], "/Parent", p);
      }
    }
  }

  /** After an insertion neighbours link both ways. */
  lemma InsertAdjacent(a: Arena, d: Arena, p: Ref, ns: seq<Ref>, k: nat, item: Ref)
    requires TreeObjects.WellLinked(a, p, ns) && k < |ns| && KeepsOthers(a, d, ns, k)
    requires TreeObjects.IsNode(d, ns[k])
             && TreeObjects.Entries(d, ns[k]) == TreeObjects.Entries(a, ns[k])["/Prev" := Indirect(item)]
    requires k > 0 ==> TreeObjects.IsNode(d, ns[k - 1])
                       && TreeObjects.Entries(d, ns[k - 1]) == TreeObjects.Entries(a, ns[k - 1])["/Next" := Indirect(item)]
    requires TreeObjects.LinkIs(d, item, "/Next", ns[k])
    requires k > 0 ==> TreeObjects.LinkIs(d, item, "/Prev", ns[k - 1])
    ensures forall i :: 0 <= i < |ns| ==> TreeObjects.Adjacent(d, InsertAt(ns, k, item)[i], InsertAt(ns, k, item)[i + 1])
  {
    var ns' := InsertAt(ns, k, item);
    forall i | 0 <= i < |ns| ensures TreeObjects.Adjacent(d, ns'[i], ns'[i + 1]) {
      if i + 1 < k {
        assert TreeObjects.Adjacent(a, ns[i], ns[i + 1]);
      } else if i > k {
        assert TreeObjects.Adjacent(a, ns[i - 1], ns[i]);
      }
    }
  }

  /** A node outside the arena added to distinct nodes keeps them
      distinct. */
  lemma InsertDistinct(a: Arena, p: Ref, ns: seq<Ref>, k: nat, item: Ref)
    requires TreeObjects.WellLinked(a, p, ns) && k <= |ns| && item !in a
    ensures TreeObjects.Distinct(InsertAt(ns, k, item)) && p !in InsertAt(ns, k, item)
  {
    var ns' := InsertAt(ns, k, item);
    assert forall i :: 0 <= i < |ns| ==> ns[i] in a by {
      forall i | 0 <= i < |ns| ensures ns[i] in a {
        assert TreeObjects.LinkIs(a, ns[i], "/Parent", p);
      }
    }
    forall i, j | 0 <= i < j < |ns'| ensures ns'[i] != ns'[j] {
      if i < k && j > k {
        assert ns'[j] == ns[j - 1];
      }
    }
  }

  /** The links an append leaves make `ns + [item]` well linked. */
  lemma AppendLinks(a: Arena, d: Arena, p: Ref, ns: seq<Ref>, item: Ref)
    requires TreeObjects.WellLinked(a, p, ns) && item !in a && KeepsOthers(a, d, ns, |ns|)
    requires TreeObjects.IsNode(d, p) && TreeObjects.LinkIs(d, p, "/Last", item)
    requires TreeObjects.LinkIs(d, p, "/First", if ns == [] then item else ns[0])
    requires ns != [] ==> TreeObjects.IsNode(d, ns[|ns| - 1])
                          && TreeObjects.Entries(d, ns[|ns| - 1])
                             == TreeObjects.Entries(a, ns[|ns| - 1])["/Next" := Indirect(item)]
    requires TreeObjects.LinkIs(d, item, "/Parent", p) && TreeObjects.NoLink(d, item, "/Next")
    requires ns == [] ==> TreeObjects.NoLink(d, item, "/Prev")
    requires ns != [] ==> TreeObjects.LinkIs(d, item, "/Prev", ns[|ns| - 1])
    ensures TreeObjects.WellLinked(d, p, ns + [item])
  {
    var ns' := ns + [item];
    assert ns' == InsertAt(ns, |ns|, item);
    InsertDistinct(a, p, ns, |ns|, item);
    forall i | 0 <= i < |ns'| - 1 ensures TreeObjects.Adjacent(d, ns'[i], ns'[i + 1]) {
      if i < |ns| - 1 {
        assert TreeObjects.Adjacent(a, ns[i], ns[i + 1]);
      }
    }
    forall i | 0 <= i < |ns'| ensures TreeObjects.LinkIs(d, ns'[i], "/Parent", p) {
      if i < |ns| {
        assert TreeObjects.LinkIs(a, ns[i], "/Parent", p);
      }
    }
    if ns != [] {
      assert TreeObjects.NoLink(a, ns[0], "/Prev");
    }
  }

  /** The links an insertion at `k` leaves make `ns[..k] + [item] + ns[k..]`
      well linked. */
  lemma InsertLinks(a: Arena, d: Arena, p: Ref, ns: seq<Ref>, k: nat, item: Ref)
    requires TreeObjects.WellLinked(a, p, ns) && item !in a && k < |ns| && KeepsOthers(a, d, ns, k)
    requires TreeObjects.IsNode(d, p) && TreeObjects.LinkIs(d, p, "/Last", ns[|ns| - 1])
    requires TreeObjects.LinkIs(d, p, "/First", if k == 0 then item else ns[0])
    requires TreeObjects.IsNode(d, ns[k])
             && TreeObjects.Entries(d, ns[k]) == TreeObjects.Entries(a, ns[k])["/Prev" := Indirect(item)]
    requires k > 0 ==> TreeObjects.IsNode(d, ns[k - 1])
                       && TreeObjects.Entries(d, ns[k - 1]) == TreeObjects.Entries(a, ns[k - 1])["/Next" := Indirect(item)]
    requires TreeObjects.LinkIs(d, item, "/Parent", p) && TreeObjects.LinkIs(d, item, "/Next", ns[k])
    requires k == 0 ==> TreeObjects.NoLink(d, item, "/Prev")
    requires k > 0 ==> TreeObjects.LinkIs(d, item, "/Prev", ns[k - 1])
    ensures TreeObjects.WellLinked(d, p, InsertAt(ns, k, item))
  {
    var ns' := InsertAt(ns, k, item);
    InsertParents(a, d, p, ns, k, item);
    InsertAdjacent(a, d, p, ns, k, item);
    InsertDistinct(a, p, ns, k, item);
    assert TreeObjects.NoLink(a, ns[|ns| - 1], "/Next");
    assert TreeObjects.NoLink(a, ns[0], "/Prev");
    assert ns'[|ns'| - 1] == ns[|ns| - 1];
    assert TreeObjects.Ends(d, p, ns');
  }

  /** The count update leaves the links alone. */
  lemma IncrementKeepsLinks(a: Arena, p: Ref, ns: seq<Ref>)
    requires TreeObjects.WellLinked(a, p, ns) && CountOk(a, p)
    ensures IncrementCount(a, p).Ok?
    ensures var c := IncrementCount(a, p).value;
            TreeObjects.WellLinked(c, p, ns)
            && TreeObjects.Entries(c, p) == TreeObjects.Entries(a, p)["/Count" := Int(CountAfter(a, p))]
  {
    var c := IncrementCount(a, p).value;
    var ea := TreeObjects.Entries(a, p);
    var ec := TreeObjects.Entries(c, p);
    assert ec == ea["/Count" := Int(CountAfter(a, p))];
    forall i | 0 <= i < |ns| ensures ns[i] in c && c[ns[i]] == a[ns[i]] {
      assert TreeObjects.LinkIs(a, ns[i], "/Parent", p);
    }
    assert TreeObjects.Ends(c, p, ns);
  }

  /** What the corrected append does to the arena: the parent's /Last
      (and /First of an empty list) and the old last child's /Next name
      the item, the item's /Prev names the old last child. */
  lemma LinkAppend(c: Arena, p: Ref, ns: seq<Ref>, item: Ref, e: map<string, Obj>)
    requires TreeObjects.WellLinked(c, p, ns) && item !in c
    ensures Link(c, p, None, item, e, true).Ok?
    ensures var b := Link(c, p, None, item, e, true).value.0;
            var e' := Link(c, p, None, item, e, true).value.1;
            b.Keys == c.Keys && TreeObjects.IsNode(b, p)
            && (forall x :: x in c && x != p && (ns == [] || x != ns[|ns| - 1]) ==> b[x] == c[x])
            && TreeObjects.Entries(b, p)
               == (if ns == [] then TreeObjects.Entries(c, p)["/Last" := Indirect(item)]["/First" := Indirect(item)]
                   else TreeObjects.Entries(c, p)["/Last" := Indirect(item)])
            && (ns != [] ==> TreeObjects.IsNode(b, ns[|ns| - 1])
                             && TreeObjects.Entries(b, ns[|ns| - 1])
                                == TreeObjects.Entries(c, ns[|ns| - 1])["/Next" := Indirect(item)]
                             && e' == e["/Prev" := Indirect(ns[|ns| - 1])])
            && (ns == [] ==> e' == e)
  {
    if ns != [] {
      var last := ns[|ns| - 1];
      assert TreeObjects.LinkIs(c, p, "/Last", last);
      var b0 := TreeObjects.Put(c, last, "/Next", Indirect(item));
      var b1 := TreeObjects.Put(b0, p, "/Last", Indirect(item));
      assert "/First" in TreeObjects.Entries(b1, p);
      assert Link(c, p, None, item, e, true) == Ok((b1, e["/Prev" := Indirect(last)]));
    }
  }

  /** The arena after the corrected append, item included: the children
      are `ns + [item]`, the parent's count is as it was, and only the
      parent and the old last child changed. */
  lemma AppendStep(c: Arena, p: Ref, ns: seq<Ref>, item: Ref, e: map<string, Obj>)
    requires TreeObjects.WellLinked(c, p, ns) && item !in c && "/Next" !in e && "/Prev" !in e
    ensures Link(c, p, None, item, e, true).Ok?
    ensures var de := Link(c, p, None, item, e, true).value;
            var d := Attach(de.0, item, de.1, p);
            TreeObjects.WellLinked(d, p, ns + [item])
            && ("/Count" in TreeObjects.Entries(c, p) ==>
                  "/Count" in TreeObjects.Entries(d, p)
                  && TreeObjects.Entries(d, p)["/Count"] == TreeObjects.Entries(c, p)["/Count"])
            && forall x :: x in c && x != p && (ns == [] || x != ns[|ns| - 1]) ==> d[x] == c[x]
  {
    LinkAppend(c, p, ns, item, e);
    var de := Link(c, p, None, item, e, true).value;
    Appended(c, de.0, de.1, p, ns, item, e);
  }

  /** From the relinked arena `b` and the item's links `e'` to the arena
      with the item attached. */
  lemma Appended(c: Arena, b: Arena, e': map<string, Obj>, p: Ref, ns: seq<Ref>, item: Ref, e: map<string, Obj>)
    requires TreeObjects.WellLinked(c, p, ns) && item !in c && "/Next" !in e && "/Prev" !in e
    requires b.Keys == c.Keys && TreeObjects.IsNode(b, p)
    requires forall x :: x in c && x != p && (ns == [] || x != ns[|ns| - 1]) ==> b[x] == c[x]
    requires TreeObjects.Entries(b, p)
             == (if ns == [] then TreeObjects.Entries(c, p)["/Last" := Indirect(item)]["/First" := Indirect(item)]
                 else TreeObjects.Entries(c, p)["/Last" := Indirect(item)])
    requires ns != [] ==> TreeObjects.IsNode(b, ns[|ns| - 1])
                          && TreeObjects.Entries(b, ns[|ns| - 1])
                             == TreeObjects.Entries(c, ns[|ns| - 1])["/Next" := Indirect(item)]
                          && e' == e["/Prev" := Indirect(ns[|ns| - 1])]
    requires ns == [] ==> e' == e
    ensures var d := Attach(b, item, e', p);
            TreeObjects.WellLinked(d, p, ns + [item])
            && ("/Count" in TreeObjects.Entries(c, p) ==>
                  "/Count" in TreeObjects.Entries(d, p)
                  && TreeObjects.Entries(d, p)["/Count"] == TreeObjects.Entries(c, p)["/Count"])
            && forall x :: x in c && x != p && (ns == [] || x != ns[|ns| - 1]) ==> d[x] == c[x]
  {
    var d := Attach(b, item, e', p);
    assert KeepsOthers(c, d, ns, |ns|) by {
      forall i | 0 <= i < |ns| && i + 1 != |ns|
        ensures TreeObjects.IsNode(d, ns[i]) && ns[i] in c && TreeObjects.IsNode(c, ns[i])
                && TreeObjects.Entries(d, ns[i]) == TreeObjects.Entries(c, ns[i])
      {
        assert TreeObjects.LinkIs(c, ns[i], "/Parent", p);
        assert ns[i] != ns[|ns| - 1];
        assert d[ns[i]] == b[ns[i]] == c[ns[i]];
      }
    }
    assert TreeObjects.IsNode(d, p) && TreeObjects.Entries(d, p) == TreeObjects.Entries(b, p);
    if ns != [] {
      var last := ns[|ns| - 1];
      assert TreeObjects.LinkIs(c, last, "/Parent", p);
      assert d[last] == b[last];
    }
    AppendLinks(c, d, p, ns, item);
  }

  /** The corrected append makes the item the last child, linked both
      ways to the old last, and counts it. */
  lemma AppendCorrected(a: Arena, root: Ref, st: Style, p: Ref, ns: seq<Ref>, item: Ref, spare: Ref)
    requires TreeObjects.IsNode(a, root) && item !in a && spare !in a && item != spare
    requires TreeObjects.WellLinked(a, p, ns) && CountOk(a, p)
    ensures var r := AddOutlineItem(a, root, st, Some(p), None, item, spare, true);
            r.Ok? && TreeObjects.WellLinked(r.value, p, ns + [item])
            && "/Count" in TreeObjects.Entries(r.value, p)
            && TreeObjects.Entries(r.value, p)["/Count"] == Int(CountAfter(a, p))
  {
    var d := AppendArena(a, root, st, p, ns, item, spare);
  }

  /** Only the parent and the old last child change, besides the new
      item. */
  lemma AppendTouchesTwo(a: Arena, root: Ref, st: Style, p: Ref, ns: seq<Ref>, item: Ref, spare: Ref)
    requires TreeObjects.IsNode(a, root) && item !in a && spare !in a && item != spare
    requires TreeObjects.WellLinked(a, p, ns) && CountOk(a, p)
    ensures var r := AddOutlineItem(a, root, st, Some(p), None, item, spare, true);
            r.Ok? && forall x :: x in a && x != p && (ns == [] || x != ns[|ns| - 1]) ==> r.value[x] == a[x]
  {
    var d := AppendArena(a, root, st, p, ns, item, spare);
    var c := IncrementCount(a, p).value;
    assert forall x :: x in a && x != p && (ns == [] || x != ns[|ns| - 1]) ==> d[x] == c[x];
  }

  /** The arena the corrected append leaves, with the facts about it. */
  lemma AppendArena(a: Arena, root: Ref, st: Style, p: Ref, ns: seq<Ref>, item: Ref, spare: Ref) returns (d: Arena)
    requires TreeObjects.IsNode(a, root) && item !in a && spare !in a && item != spare
    requires TreeObjects.WellLinked(a, p, ns) && CountOk(a, p)
    ensures AddOutlineItem(a, root, st, Some(p), None, item, spare, true) == Ok(d)
    ensures TreeObjects.WellLinked(d, p, ns + [item])
    ensures "/Count" in TreeObjects.Entries(d, p) && TreeObjects.Entries(d, p)["/Count"] == Int(CountAfter(a, p))
    ensures IncrementCount(a, p).Ok?
            && forall x :: x in a && x != p && (ns == [] || x != ns[|ns| - 1]) ==> d[x] == IncrementCount(a, p).value[x]
  {
    IncrementKeepsLinks(a, p, ns);
    var c := IncrementCount(a, p).value;
    var e := ItemEntries(st);
    AppendStep(c, p, ns, item, e);
    var de := Link(c, p, None, item, e, true).value;
    d := Attach(de.0, item, de.1, p);
    UnderGivenParent(a, root, st, p, None, item, spare, true);
  }

  /** Under a given parent the item is the linked arena with the item
      attached. */
  lemma UnderGivenParent(a: Arena, root: Ref, st: Style, p: Ref, before: Option<Ref>, item: Ref, spare: Ref, corrected: bool)
    requires TreeObjects.IsNode(a, root) && item !in a && spare !in a && item != spare
    requires TreeObjects.IsNode(a, p) && IncrementCount(a, p).Ok?
    ensures var c := IncrementCount(a, p).value;
            var r := AddOutlineItem(a, root, st, Some(p), before, item, spare, corrected);
            var l := Link(c, p, before, item, ItemEntries(st), corrected);
            (r.Ok? <==> l.Ok?) && (r.Err? ==> r.exc == l.exc)
            && (l.Ok? ==> r.value == Attach(l.value.0, item, l.value.1, p))
  {
  }

  /** What an insertion before the child at `k` does to the arena: the
      item's /Next names that child and its /Prev the child before it,
      whose /Next names the item; the child's /Prev names the item; before
      the first child (corrected only) the parent's /First names it. */
  lemma LinkInsert(c: Arena, p: Ref, ns: seq<Ref>, k: nat, item: Ref, e: map<string, Obj>, corrected: bool)
    requires TreeObjects.WellLinked(c, p, ns) && item !in c && k < |ns| && (k == 0 ==> corrected)
    ensures Link(c, p, Some(ns[k]), item, e, corrected).Ok?
    ensures var b := Link(c, p, Some(ns[k]), item, e, corrected).value.0;
            var e' := Link(c, p, Some(ns[k]), item, e, corrected).value.1;
            b.Keys == c.Keys && TreeObjects.IsNode(b, p)
            && (forall x :: x in c && x != p && x != ns[k] && (k == 0 || x != ns[k - 1]) ==> b[x] == c[x])
            && TreeObjects.Entries(b, p)
               == (if k == 0 then TreeObjects.Entries(c, p)["/First" := Indirect(item)] else TreeObjects.Entries(c, p))
            && TreeObjects.IsNode(b, ns[k])
            && TreeObjects.Entries(b, ns[k]) == TreeObjects.Entries(c, ns[k])["/Prev" := Indirect(item)]
            && (k > 0 ==> TreeObjects.IsNode(b, ns[k - 1])
                          && TreeObjects.Entries(b, ns[k - 1]) == TreeObjects.Entries(c, ns[k - 1])["/Next" := Indirect(item)]
                          && e' == e["/Next" := Indirect(ns[k])]["/Prev" := Indirect(ns[k - 1])])
            && (k == 0 ==> e' == e["/Next" := Indirect(ns[k])])
  {
    assert TreeObjects.LinkIs(c, ns[k], "/Parent", p);
    if k > 0 {
      assert TreeObjects.Adjacent(c, ns[k - 1], ns[k]);
      assert ns[k - 1] != ns[k];
      var b1 := TreeObjects.Put(c, ns[k - 1], "/Next", Indirect(item));
      var b2 := TreeObjects.Put(b1, ns[k], "/Prev", Indirect(item));
      assert Link(c, p, Some(ns[k]), item, e, corrected)
             == Ok((b2, e["/Next" := Indirect(ns[k])]["/Prev" := Indirect(ns[k - 1])]));
    } else {
      assert TreeObjects.NoLink(c, ns[0], "/Prev");
    }
  }

  /** The attached item's own links after an insertion at `k`. */
  lemma InsertedItem(b: Arena, e': map<string, Obj>, p: Ref, ns: seq<Ref>, k: nat, item: Ref, e: map<string, Obj>)
    requires k < |ns| && "/Prev" !in e
    requires k > 0 ==> e' == e["/Next" := Indirect(ns[k])]["/Prev" := Indirect(ns[k - 1])]
    requires k == 0 ==> e' == e["/Next" := Indirect(ns[k])]
    ensures var d := Attach(b, item, e', p);
            TreeObjects.LinkIs(d, item, "/Parent", p) && TreeObjects.LinkIs(d, item, "/Next", ns[k])
            && (k == 0 ==> TreeObjects.NoLink(d, item, "/Prev"))
            && (k > 0 ==> TreeObjects.LinkIs(d, item, "/Prev", ns[k - 1]))
  {
  }

  /** From the relinked arena `b` and the item's links `e'` to the arena
      with the item attached, for an insertion at `k`. */
  lemma Inserted(c: Arena, b: Arena, e': map<string, Obj>, p: Ref, ns: seq<Ref>, k: nat, item: Ref, e: map<string, Obj>)
    requires TreeObjects.WellLinked(c, p, ns) && item !in c && k < |ns| && "/Next" !in e && "/Prev" !in e
    requires b.Keys == c.Keys && TreeObjects.IsNode(b, p)
    requires forall x :: x in c && x != p && x != ns[k] && (k == 0 || x != ns[k - 1]) ==> b[x] == c[x]
    requires TreeObjects.Entries(b, p)
             == (if k == 0 then TreeObjects.Entries(c, p)["/First" := Indirect(item)] else TreeObjects.Entries(c, p))
    requires TreeObjects.IsNode(b, ns[k])
             && TreeObjects.Entries(b, ns[k]) == TreeObjects.Entries(c, ns[k])["/Prev" := Indirect(item)]
    requires k > 0 ==> TreeObjects.IsNode(b, ns[k - 1])
                       && TreeObjects.Entries(b, ns[k - 1]) == TreeObjects.Entries(c, ns[k - 1])["/Next" := Indirect(item)]
                       && e' == e["/Next" := Indirect(ns[k])]["/Prev" := Indirect(ns[k - 1])]
    requires k == 0 ==> e' == e["/Next" := Indirect(ns[k])]
    ensures var d := Attach(b, item, e', p);
            TreeObjects.WellLinked(d, p, InsertAt(ns, k, item))
            && ("/Count" in TreeObjects.Entries(c, p) ==>
                  "/Count" in TreeObjects.Entries(d, p)
                  && TreeObjects.Entries(d, p)["/Count"] == TreeObjects.Entries(c, p)["/Count"])
  {
    var d := Attach(b, item, e', p);
    InsertKeeps(c, b, d, p, ns, k, item);
    InsertedItem(b, e', p, ns, k, item, e);
    assert TreeObjects.IsNode(d, p) && TreeObjects.Entries(d, p) == TreeObjects.Entries(b, p);
    assert TreeObjects.LinkIs(c, ns[k], "/Parent", p);
    assert d[ns[k]] == b[ns[k]];
    if k > 0 {
      assert TreeObjects.LinkIs(c, ns[k - 1], "/Parent", p);
      assert d[ns[k - 1]] == b[ns[k - 1]];
    }
    assert TreeObjects.LinkIs(c, p, "/Last", ns[|ns| - 1]);
    assert k == 0 || TreeObjects.LinkIs(c, p, "/First", ns[0]);
    InsertLinks(c, d, p, ns, k, item);
  }

  /** The arena after an insertion at `k`, item included. */
  lemma InsertStep(c: Arena, p: Ref, ns: seq<Ref>, k: nat, item: Ref, e: map<string, Obj>, corrected: bool)
    requires TreeObjects.WellLinked(c, p, ns) && item !in c && k < |ns| && (k == 0 ==> corrected)
    requires "/Next" !in e && "/Prev" !in e
    ensures Link(c, p, Some(ns[k]), item, e, corrected).Ok?
    ensures var de := Link(c, p, Some(ns[k]), item, e, corrected).value;
            var d := Attach(de.0, item, de.1, p);
            TreeObjects.WellLinked(d, p, InsertAt(ns, k, item))
            && ("/Count" in TreeObjects.Entries(c, p) ==>
                  "/Count" in TreeObjects.Entries(d, p)
                  && TreeObjects.Entries(d, p)["/Count"] == TreeObjects.Entries(c, p)["/Count"])
  {
    LinkInsert(c, p, ns, k, item, e, corrected);
    var de := Link(c, p, Some(ns[k]), item, e, corrected).value;
    Inserted(c, de.0, de.1, p, ns, k, item, e);
  }

  /** The children an insertion does not touch read as before. */
  lemma InsertKeeps(c: Arena, b: Arena, d: Arena, p: Ref, ns: seq<Ref>, k: nat, item: Ref)
    requires TreeObjects.WellLinked(c, p, ns) && item !in c && k < |ns|
    requires forall x :: x in c && x != p && x != ns[k] && (k == 0 || x != ns[k - 1]) ==> x in b && b[x] == c[x]
    requires forall x :: x in b && x != item ==> x in d && d[x] == b[x]
    requires b.Keys == c.Keys
    ensures KeepsOthers(c, d, ns, k)
  {
    forall i | 0 <= i < |ns| && i != k && i + 1 != k
      ensures TreeObjects.IsNode(d, ns[i]) && ns[i] in c && TreeObjects.IsNode(c, ns[i])
              && TreeObjects.Entries(d, ns[i]) == TreeObjects.Entries(c, ns[i])
    {
      assert TreeObjects.LinkIs(c, ns[i], "/Parent", p);
      assert ns[i] != ns[k];
      assert k > 0 ==> ns[i] != ns[k - 1];
      assert d[ns[i]] == b[ns[i]] == c[ns[i]];
    }
  }

  /** The arena an insertion before the child at `k` leaves. */
  lemma InsertArena(a: Arena, root: Ref, st: Style, p: Ref, ns: seq<Ref>, k: nat, item: Ref, spare: Ref, corrected: bool)
    returns (d: Arena)
    requires TreeObjects.IsNode(a, root) && item !in a && spare !in a && item != spare
    requires TreeObjects.WellLinked(a, p, ns) && CountOk(a, p) && k < |ns| && (k == 0 ==> corrected)
    ensures AddOutlineItem(a, root, st, Some(p), Some(ns[k]), item, spare, corrected) == Ok(d)
    ensures TreeObjects.WellLinked(d, p, InsertAt(ns, k, item))
    ensures "/Count" in TreeObjects.Entries(d, p) && TreeObjects.Entries(d, p)["/Count"] == Int(CountAfter(a, p))
  {
    IncrementKeepsLinks(a, p, ns);
    var c := IncrementCount(a, p).value;
    var e := ItemEntries(st);
    InsertStep(c, p, ns, k, item, e, corrected);
    var de := Link(c, p, Some(ns[k]), item, e, corrected).value;
    d := Attach(de.0, item, de.1, p);
    UnderGivenParent(a, root, st, p, Some(ns[k]), item, spare, corrected);
  }

  /** The corrected insertion puts the item just before the child at `k`,
      for every `k`, and counts it. */
  lemma InsertCorrected(a: Arena, root: Ref, st: Style, p: Ref, ns: seq<Ref>, k: nat, item: Ref, spare: Ref)
    requires TreeObjects.IsNode(a, root) && item !in a && spare !in a && item != spare
    requires TreeObjects.WellLinked(a, p, ns) && CountOk(a, p) && k < |ns|
    ensures var r := AddOutlineItem(a, root, st, Some(p), Some(ns[k]), item, spare, true);
            r.Ok? && TreeObjects.WellLinked(r.value, p, ns[..k] + [item] + ns[k..])
            && "/Count" in TreeObjects.Entries(r.value, p)
            && TreeObjects.Entries(r.value, p)["/Count"] == Int(CountAfter(a, p))
  {
    var d := InsertArena(a, root, st, p, ns, k, item, spare, true);
  }

  /** Before any child but the first, the code as written already inserts
      correctly: it agrees with the corrected insertion. */
  lemma InsertMiddleAsWritten(a: Arena, root: Ref, st: Style, p: Ref, ns: seq<Ref>, k: nat, item: Ref, spare: Ref)
    requires TreeObjects.IsNode(a, root) && item !in a && spare !in a && item != spare
    requires TreeObjects.WellLinked(a, p, ns) && CountOk(a, p) && 0 < k < |ns|
    ensures AddOutlineItem(a, root, st, Some(p), Some(ns[k]), item, spare, false)
            == AddOutlineItem(a, root, st, Some(p), Some(ns[k]), item, spare, true)
  {
    IncrementKeepsLinks(a, p, ns);
    var c := IncrementCount(a, p).value;
    var e := ItemEntries(st);
    assert TreeObjects.Adjacent(c, ns[k - 1], ns[k]);
    assert Link(c, p, Some(ns[k]), item, e, false) == Link(c, p, Some(ns[k]), item, e, true);
    UnderGivenParent(a, root, st, p, Some(ns[k]), item, spare, false);
    UnderGivenParent(a, root, st, p, Some(ns[k]), item, spare, true);
  }


  /** As written, inserting before the first child stores None as the
      item's /Prev, which the dictionary refuses. */
  lemma InsertFirstAsWritten(a: Arena, root: Ref, st: Style, p: Ref, ns: seq<Ref>, item: Ref, spare: Ref)
    requires TreeObjects.IsNode(a, root) && item !in a && spare !in a && item != spare
    requires TreeObjects.WellLinked(a, p, ns) && CountOk(a, p) && ns != []
    ensures AddOutlineItem(a, root, st, Some(p), Some(ns[0]), item, spare, false) == Err(ValueError)
  {
    IncrementKeepsLinks(a, p, ns);
    var c := IncrementCount(a, p).value;
    UnderGivenParent(a, root, st, p, Some(ns[0]), item, spare, false);
    assert TreeObjects.LinkIs(c, ns[0], "/Parent", p);
    assert TreeObjects.NoLink(c, ns[0], "/Prev");
  }

  /** A parent whose /Last names a node without /Prev, and whose /First
      names another node, has no well-linked children. */
  lemma Stranded(d: Arena, p: Ref, item: Ref, first: Ref, ms: seq<Ref>)
    requires TreeObjects.LinkIs(d, p, "/Last", item) && TreeObjects.NoLink(d, item, "/Prev")
    requires TreeObjects.LinkIs(d, p, "/First", first) && first != item
    ensures !TreeObjects.WellLinked(d, p, ms)
  {
    if TreeObjects.WellLinked(d, p, ms) {
      LastLinksBack(d, p, ms);
    }
  }

  /** In well-linked children the last child links back to the one
      before it. */
  lemma LastLinksBack(d: Arena, p: Ref, ms: seq<Ref>)
    requires TreeObjects.WellLinked(d, p, ms)
    ensures |ms| >= 2 ==> TreeObjects.LinkIs(d, ms[|ms| - 1], "/Prev", ms[|ms| - 2])
  {
    if |ms| >= 2 {
      assert TreeObjects.Adjacent(d, ms[|ms| - 2], ms[|ms| - 1]);
    }
  }

  /** As written, appending to a non-empty list makes the item the
      parent's /Last but leaves the old last child without a /Next and
      the item without a /Prev, so no order of children is well linked
      any more. */
  lemma AppendAsWritten(a: Arena, root: Ref, st: Style, p: Ref, ns: seq<Ref>, item: Ref, spare: Ref)
    requires TreeObjects.IsNode(a, root) && item !in a && spare !in a && item != spare
    requires TreeObjects.WellLinked(a, p, ns) && CountOk(a, p) && ns != []
    ensures var r := AddOutlineItem(a, root, st, Some(p), None, item, spare, false);
            r.Ok? && TreeObjects.LinkIs(r.value, p, "/Last", item)
            && TreeObjects.NoLink(r.value, ns[|ns| - 1], "/Next") && TreeObjects.NoLink(r.value, item, "/Prev")
            && forall ms :: !TreeObjects.WellLinked(r.value, p, ms)
  {
    var d := AppendAsWrittenArena(a, root, st, p, ns, item, spare);
    forall ms ensures !TreeObjects.WellLinked(d, p, ms) {
      Stranded(d, p, item, ns[0], ms);
    }
  }

  /** The arena the append as written leaves. */
  lemma AppendAsWrittenArena(a: Arena, root: Ref, st: Style, p: Ref, ns: seq<Ref>, item: Ref, spare: Ref)
    returns (d: Arena)
    requires TreeObjects.IsNode(a, root) && item !in a && spare !in a && item != spare
    requires TreeObjects.WellLinked(a, p, ns) && CountOk(a, p) && ns != []
    ensures AddOutlineItem(a, root, st, Some(p), None, item, spare, false) == Ok(d)
    ensures TreeObjects.LinkIs(d, p, "/Last", item) && TreeObjects.LinkIs(d, p, "/First", ns[0]) && ns[0] != item
    ensures TreeObjects.NoLink(d, ns[|ns| - 1], "/Next") && TreeObjects.NoLink(d, item, "/Prev")
  {
    IncrementKeepsLinks(a, p, ns);
    var c := IncrementCount(a, p).value;
    var e := ItemEntries(st);
    UnderGivenParent(a, root, st, p, None, item, spare, false);
    AsWrittenStep(c, p, ns, item, e);
    var de := Link(c, p, None, item, e, false).value;
    d := Attach(de.0, item, de.1, p);
  }

  /** The arena after the append as written, item included. */
  lemma AsWrittenStep(c: Arena, p: Ref, ns: seq<Ref>, item: Ref, e: map<string, Obj>)
    requires TreeObjects.WellLinked(c, p, ns) && item !in c && ns != [] && "/Prev" !in e
    ensures Link(c, p, None, item, e, false).Ok?
    ensures var de := Link(c, p, None, item, e, false).value;
            var d := Attach(de.0, item, de.1, p);
            TreeObjects.LinkIs(d, p, "/Last", item) && TreeObjects.LinkIs(d, p, "/First", ns[0]) && ns[0] != item
            && TreeObjects.NoLink(d, ns[|ns| - 1], "/Next") && TreeObjects.NoLink(d, item, "/Prev")
  {
    var b1 := LinkAsWritten(c, p, ns, item, e);
    AttachedAsWritten(b1, p, ns, item, e);
  }

  /** The item attached after the append as written. */
  lemma AttachedAsWritten(b: Arena, p: Ref, ns: seq<Ref>, item: Ref, e: map<string, Obj>)
    requires item !in b && ns != [] && "/Prev" !in e && ns[0] in b
    requires TreeObjects.LinkIs(b, p, "/Last", item) && TreeObjects.LinkIs(b, p, "/First", ns[0])
    requires TreeObjects.NoLink(b, ns[|ns| - 1], "/Next")
    ensures var d := Attach(b, item, e, p);
            TreeObjects.LinkIs(d, p, "/Last", item) && TreeObjects.LinkIs(d, p, "/First", ns[0]) && ns[0] != item
            && TreeObjects.NoLink(d, ns[|ns| - 1], "/Next") && TreeObjects.NoLink(d, item, "/Prev")
  {
    var d := Attach(b, item, e, p);
    assert d[p] == b[p] && d[ns[|ns| - 1]] == b[ns[|ns| - 1]];
  }

  /** Appending as written touches the parent only. */
  lemma LinkAsWritten(c: Arena, p: Ref, ns: seq<Ref>, item: Ref, e: map<string, Obj>) returns (b: Arena)
    requires TreeObjects.WellLinked(c, p, ns) && item !in c && ns != []
    ensures Link(c, p, None, item, e, false) == Ok((b, e))
    ensures item !in b && ns[0] in b
    ensures TreeObjects.LinkIs(b, p, "/Last", item) && TreeObjects.LinkIs(b, p, "/First", ns[0])
    ensures TreeObjects.NoLink(b, ns[|ns| - 1], "/Next")
  {
    var last := ns[|ns| - 1];
    assert TreeObjects.LinkIs(c, last, "/Parent", p);
    assert TreeObjects.LinkIs(c, ns[0], "/Parent", p);
    b := TreeObjects.Put(c, p, "/Last", Indirect(item));
  }



  // ---------------------------------------------------------------------
  // merge: which pages go where
  // ---------------------------------------------------------------------

  /** An element of a `pages` list: a page number of the source, or a page
      object given directly. */
  datatype PageItem = PageNo(n: int) | PageObj(page: Ref)

  /** The `pages` argument: None, a PageRange, a tuple of ints, a list, or
      anything else. */
  datatype PagesSpec = NoPages | RangePages(range: PageRanges.PageRange) | TuplePages(args: seq<int>)
                     | ListPages(items: seq<PageItem>) | OtherPages

  /** A page to insert: the source page at a position, or a given page. */
  datatype Source = SourcePage(index: nat) | GivenPage(page: Ref)

  /** `range(*t)` for a tuple of ints: one to three arguments, a zero step
      raising ValueError. */
  function RangeArgs(t: seq<int>): Result<seq<int>>
  {
    if |t| == 1 then Ok(PageRanges.RangeList(0, t[0], 1))
    else if |t| == 2 then Ok(PageRanges.RangeList(t[0], t[1], 1))
    else if |t| == 3 then (if t[2] == 0 then Err(ValueError) else Ok(PageRanges.RangeList(t[0], t[1], t[2])))
    else Err(TypeError)
  }

  function Numbers(ns: seq<int>): (r: seq<PageItem>)
    ensures |r| == |ns| && forall i :: 0 <= i < |ns| ==> r[i] == PageNo(ns[i])
  {
    if ns == [] then [] else [PageNo(ns[0])] + Numbers(ns[1..])
  }

  /** The first half of `merge`: `pages` normalised to a list, for a
      source of `n` pages. */
  function PageList(spec: PagesSpec, n: nat): Result<seq<PageItem>>
  {
    match spec
    case NoPages => Ok(Numbers(PageRanges.RangeList(0, n, 1)))
    case RangePages(p) =>
      (match PageRanges.Pages(p, n)
       case Err(x) => Err(x)
       case Ok(ns) => Ok(Numbers(ns)))
    case TuplePages(t) =>
      (match RangeArgs(t)
       case Err(x) => Err(x)
       case Ok(ns) => Ok(Numbers(ns)))
    case ListPages(items) => Ok(items)
    case OtherPages => Err(TypeError)
  }

  /** `fileobj.pages[page]` for an int, through the source's virtual list;
      a page object is taken as given. */
  function Resolve(n: nat, item: PageItem): (r: Result<Source>)
    ensures item.PageObj? ==> r == Ok(GivenPage(item.page))
    ensures item.PageNo? ==> (r.Ok? <==> -(n as int) <= item.n < n)
    ensures item.PageNo? && 0 <= item.n < n ==> r == Ok(SourcePage(item.n))
  {
    match item
    case PageObj(p) => Ok(GivenPage(p))
    case PageNo(k) =>
      match VirtualLists.Normalize(n, k)
      case Err(x) => Err(x)
      case Ok(j) => Ok(SourcePage(j))
  }

  /** The pages of the list resolved in order; the first failure stops. */
  function ResolveAll(n: nat, items: seq<PageItem>): (r: Result<seq<Source>>)
    ensures r.Ok? <==> forall i :: 0 <= i < |items| ==> Resolve(n, items[i]).Ok?
    ensures r.Ok? ==> |r.value| == |items| && forall i :: 0 <= i < |items| ==> r.value[i] == Resolve(n, items[i]).value
  {
    if items == [] then Ok([])
    else match Resolve(n, items[0])
      case Err(x) => Err(x)
      case Ok(s) =>
        match ResolveAll(n, items[1..])
        case Err(x) => Err(x)
        case Ok(rest) =>
          assert forall i :: 1 <= i < |items| ==> items[i] == items[1..][i - 1];
          Ok([s] + rest)
  }

  /** `merge` with the call to `insert_page` naming its parameter
      correctly: page `i` of the list goes to `position + i`, where the
      position defaults to the page count `count` of the writer. */
  function MergePlan(n: nat, count: nat, position: Option<int>, spec: PagesSpec): (r: Result<seq<(Source, int)>>)
    ensures spec.OtherPages? ==> r == Err(TypeError)
    ensures PageList(spec, n).Ok? && ResolveAll(n, PageList(spec, n).value).Ok? <==> r.Ok?
    ensures r.Ok? ==>
              var items := PageList(spec, n).value;
              var pos := if position.Some? then position.value else count;
              |r.value| == |items|
              && forall i :: 0 <= i < |items| ==>
                   r.value[i] == (Resolve(n, items[i]).value, pos + i)
  {
    match PageList(spec, n)
    case Err(x) => Err(x)
    case Ok(items) =>
      match ResolveAll(n, items)
      case Err(x) => Err(x)
      case Ok(srcs) =>
        var pos := if position.Some? then position.value else count;
        Ok(seq(|srcs|, i requires 0 <= i < |srcs| => (srcs[i], pos + i)))
  }

  /** Without `pages`, every source page is inserted, in order, from the
      position on. */
  lemma MergeAllPages(n: nat, count: nat, position: Option<int>)
    ensures var r := MergePlan(n, count, position, NoPages);
            var pos := if position.Some? then position.value else count;
            r.Ok? && |r.value| == n
            && forall i :: 0 <= i < n ==> r.value[i] == (SourcePage(i), pos + i)
  {
    var ns := PageRanges.RangeList(0, n, 1);
    VirtualLists.RangeListLength(0, n);
    forall k | 0 <= k < n ensures ns[k] == k {
      VirtualLists.RangeListAt(0, n, k);
    }
  }

  /** A PageRange selects the pages the range itself selects, and they
      all exist. */
  lemma MergeRange(n: nat, count: nat, position: Option<int>, p: PageRanges.PageRange)
    requires PageRanges.Pages(p, n).Ok?
    ensures var r := MergePlan(n, count, position, RangePages(p));
            var ns := PageRanges.Pages(p, n).value;
            r.Ok? && |r.value| == |ns|
            && forall i :: 0 <= i < |ns| ==> r.value[i].0.SourcePage? && r.value[i].0.index == ns[i]
  {
    PageRanges.PagesInBounds(p, n);
  }

  /** `merge` as written: the call `insert_page(..., excluded_fields=...)`
      names a parameter `insert_page` does not have, so once the first
      page is resolved it raises TypeError; only an empty list gets
      through, and then it agrees with the corrected merge.  A page list
      that cannot be built fails as in the corrected merge. */
  function MergeAsWritten(n: nat, count: nat, position: Option<int>, spec: PagesSpec): (r: Result<seq<(Source, int)>>)
    ensures PageList(spec, n).Ok? && PageList(spec, n).value == [] ==> r == Ok([])
    ensures r.Ok? ==> PageList(spec, n).Ok? && PageList(spec, n).value == [] && r == Ok([])
    ensures r.Ok? ==> r == MergePlan(n, count, position, spec)
    ensures PageList(spec, n).Ok? && PageList(spec, n).value != [] && Resolve(n, PageList(spec, n).value[0]).Ok?
            ==> r == Err(TypeError)
    ensures MergePlan(n, count, position, spec).Ok? && MergePlan(n, count, position, spec).value != []
            ==> r == Err(TypeError)
    ensures PageList(spec, n).Err? ==> r == MergePlan(n, count, position, spec)
  {
    match PageList(spec, n)
    case Err(x) => Err(x)
    case Ok(items) =>
      if items == [] then Ok([])
      else match Resolve(n, items[0])
        case Err(x) => Err(x)
        case Ok(_) => Err(TypeError)
  }

  /** Merging a one-page document whole: TypeError as written, the page
      at the end of the writer corrected. */
  lemma MergeCounterexample(count: nat)
    ensures MergeAsWritten(1, count, None, NoPages) == Err(TypeError)
    ensures MergePlan(1, count, None, NoPages) == Ok([(SourcePage(0), count)])
  {
    MergeAllPages(1, count, None);
    var r := MergePlan(1, count, None, NoPages).value;
    assert r == [(SourcePage(0), count)];
    assert PageRanges.RangeList(0, 1, 1) == [0] by {
      assert PageRanges.RangeList(1, 1, 1) == [];
    }
  }
}
