/** The loader checks and page lookups of `PdfReader` (`pypdf/_reader.py`):
    the header and end-of-file checks over the file's bytes, page access by
    number, the memoised map from object numbers to page numbers, the
    probe of the cross-reference keyword, and the two AcroForm top-name
    edits.  The stream is the in-memory `BytesIO` the reader wraps a file
    in, so a seek before the start lands on offset 0 and a negative
    absolute seek raises ValueError. */
module Reader {
  import opened PyBase
  import opened PdfObjects
  import VirtualLists

  // ---------------------------------------------------------------------
  // _basic_validation
  // ---------------------------------------------------------------------

  /** `b"%PDF-"`, the start of every PDF file (section 7.5.2 of ISO 32000-1). */
  const PdfMagic: seq<byte> := [37, 80, 68, 70, 45]

  /** `_basic_validation`: the first (at most) five bytes must be `%PDF-`;
      an empty file raises EmptyFileError, anything else PdfReadError. */
  function BasicValidation(data: seq<byte>): (r: Result<()>)
    ensures r.Ok? <==> |data| >= 5 && data[..5] == PdfMagic
    ensures data == [] ==> r == Err(EmptyFileError)
    ensures data != [] && r.Err? ==> r.exc == PdfReadError
  {
    var first := data[..Min(5, |data|)];
    if first == [] then Err(EmptyFileError)
    else if first != PdfMagic then Err(PdfReadError)
    else Ok(())
  }

  /** Only the first five bytes are read: whatever follows them never
      changes the verdict. */
  lemma BasicValidationReadsFive(data: seq<byte>, rest: seq<byte>)
    requires |data| == 5
    ensures BasicValidation(data + rest) == BasicValidation(data)
  {
    assert (data + rest)[..5] == data;
  }

  // ---------------------------------------------------------------------
  // _find_eof_marker
  // ---------------------------------------------------------------------

  /** `b"%%eof"`: the end-of-file marker as `bytes.lower()` leaves it. */
  const EofMarker: seq<byte> := [37, 37, 101, 111, 102]

  /** `bytes.lower()` on one byte: only ASCII capitals change. */
  function LowerByte(b: byte): byte
  {
    if 65 <= b <= 90 then b + 32 else b
  }

  function LowerBytes(s: seq<byte>): (r: seq<byte>)
    ensures |r| == |s| && forall i :: 0 <= i < |s| ==> r[i] == LowerByte(s[i])
  {
    if s == [] then [] else [LowerByte(s[0])] + LowerBytes(s[1..])
  }

  lemma LowerBytesSuffix(s: seq<byte>, k: nat)
    requires k <= |s|
    ensures LowerBytes(s[k..]) == LowerBytes(s)[k..]
  {
  }

  /** `s.rfind(pat)` restricted to matches starting at or before `k`. */
  function LastFrom(s: seq<byte>, pat: seq<byte>, k: int): (r: Option<nat>)
    requires k < |s|
    ensures r.Some? ==> r.value <= k && OccursAt(s, pat, r.value)
                        && forall j :: r.value < j <= k ==> !OccursAt(s, pat, j)
    ensures r.None? ==> forall j :: 0 <= j <= k ==> !OccursAt(s, pat, j)
    decreases k + 1
  {
    if k < 0 then None
    else if OccursAt(s, pat, k) then Some(k)
    else LastFrom(s, pat, k - 1)
  }

  /** `s.rfind(pat)` for a non-empty pattern: the rightmost match. */
  function RFind(s: seq<byte>, pat: seq<byte>): (r: Option<nat>)
    requires |pat| > 0
    ensures r.Some? ==> OccursAt(s, pat, r.value) && forall j :: r.value < j ==> !OccursAt(s, pat, j)
    ensures r.None? ==> forall j :: !OccursAt(s, pat, j)
  {
    LastFrom(s, pat, |s| - 1)
  }

  /** A match in the lowered tail is a match in the lowered file, shifted
      by where the tail starts. */
  lemma TailMatches(data: seq<byte>, start: nat)
    requires start <= |data|
    ensures forall j :: start <= j ==>
              (OccursAt(LowerBytes(data), EofMarker, j) <==> OccursAt(LowerBytes(data[start..]), EofMarker, j - start))
  {
    LowerBytesSuffix(data, start);
    var low := LowerBytes(data);
    var end := LowerBytes(data[start..]);
    forall j | start <= j
      ensures OccursAt(low, EofMarker, j) <==> OccursAt(end, EofMarker, j - start)
    {
      if j + 5 <= |low| {
        assert end[j - start..j - start + 5] == low[j..j + 5];
      }
    }
  }

  /** Where the last 1024 bytes start (`seek(-1024, 2)`, clamped at 0). */
  function TailStart(data: seq<byte>): nat
  {
    Max(0, |data| - 1024)
  }

  /** `_find_eof_marker`: the offset the stream is left at, which is the
      rightmost `%%EOF`, in any letter case, among the last 1024 bytes;
      PdfReadError when there is none. */
  function FindEofMarker(data: seq<byte>): (r: Result<nat>)
    ensures r.Ok? ==> TailStart(data) <= r.value
                      && OccursAt(LowerBytes(data), EofMarker, r.value)
                      && forall j :: r.value < j ==> !OccursAt(LowerBytes(data), EofMarker, j)
    ensures r.Err? ==> r.exc == PdfReadError
                       && forall j :: TailStart(data) <= j ==> !OccursAt(LowerBytes(data), EofMarker, j)
  {
    var start := TailStart(data);
    var end := LowerBytes(data[start..]);
    TailMatches(data, start);
    match RFind(end, EofMarker)
    case None => Err(PdfReadError)
    case Some(idx) => Ok(|data| - (|end| - idx))
  }

  /** A file ending in `%%EOF` (upper case, as writers emit it) is found
      at its very end, whatever precedes it. */
  lemma EofMarkerAtEnd(data: seq<byte>)
    ensures FindEofMarker(data + [37, 37, 69, 79, 70]) == Ok(|data|)
  {
    var d := data + [37, 37, 69, 79, 70];
    assert LowerBytes(d)[|data|..|data| + 5] == EofMarker;
    assert OccursAt(LowerBytes(d), EofMarker, |data|);
    assert TailStart(d) <= |data|;
  }

  // ---------------------------------------------------------------------
  // _get_page
  // ---------------------------------------------------------------------

  /** `_get_page(n)` over the flattened page list: no negative indexing,
      IndexError outside `0..len-1`. */
  function GetPage<P>(flat: seq<P>, n: int): (r: Result<P>)
    ensures r.Ok? <==> 0 <= n < |flat|
    ensures r.Ok? ==> r.value == flat[n]
    ensures r.Err? ==> r.exc == IndexError
  {
    if n < 0 || n >= |flat| then Err(IndexError) else Ok(flat[n])
  }

  /** `_get_page` agrees with `pages[n]` of the virtual list on
      non-negative numbers, and rejects the negative ones the list
      counts from the end. */
  lemma GetPageAgainstVirtualList<P>(flat: seq<P>, n: int)
    ensures 0 <= n ==> (GetPage(flat, n).Ok? <==> VirtualLists.GetItem(|flat|, VirtualLists.IntIndex(n)).Ok?)
    ensures 0 <= n < |flat| ==> VirtualLists.GetItem(|flat|, VirtualLists.IntIndex(n)) == Ok(VirtualLists.At(n))
    ensures -|flat| <= n < 0 ==> GetPage(flat, n) == Err(IndexError)
                                 && VirtualLists.GetItem(|flat|, VirtualLists.IntIndex(n)).Ok?
  {
  }

  // ---------------------------------------------------------------------
  // _get_page_number_by_indirect
  // ---------------------------------------------------------------------

  /** The argument: None, the null object, a bare object number, or an
      indirect reference. */
  datatype PageRefArg = NoArg | NullArg | IdArg(id: int) | RefArg(ref: Ref)

  /** The reader's page list, as the object number of each page's
      indirect reference (None for a page without one), and the memo. */
  datatype PageIndex = PageIndex(ids: seq<Option<int>>, memo: Option<map<int, nat>>)

  /** The loop filling `_page_id2num`: page `i` under its object number,
      a later page with the same number overwriting an earlier one. */
  function IdMap(ids: seq<Option<int>>): (m: map<int, nat>)
    ensures forall k :: k in m <==> Some(k) in ids
    ensures forall k :: k in m ==> m[k] < |ids| && ids[m[k]] == Some(k)
    ensures forall k, j :: k in m && m[k] < j < |ids| ==> ids[j] != Some(k)
  {
    if ids == [] then map[]
    else
      var m := IdMap(ids[..|ids| - 1]);
      assert ids == ids[..|ids| - 1] + [ids[|ids| - 1]];
      match ids[|ids| - 1]
      case None => m
      case Some(k) => m[k := |ids| - 1]
  }

  /** `_get_page_number_by_indirect`: the memo is built on the first call
      and kept; None and the null object give None, an int is taken as
      the object number, and an unknown number gives None. */
  function GetPageNumberByIndirect(st: PageIndex, arg: PageRefArg): (r: (Option<nat>, PageIndex))
    ensures r.1.ids == st.ids && r.1.memo.Some?
    ensures st.memo.Some? ==> r.1 == st
    ensures st.memo.None? ==> r.1.memo == Some(IdMap(st.ids))
    ensures arg.NoArg? || arg.NullArg? ==> r.0.None?
  {
    var m := if st.memo.Some? then st.memo.value else IdMap(st.ids);
    var st1 := PageIndex(st.ids, Some(m));
    match arg
    case NoArg => (None, st1)
    case NullArg => (None, st1)
    case IdArg(id) => (if id in m then Some(m[id]) else None, st1)
    case RefArg(ref) => (if ref.idnum in m then Some(m[ref.idnum]) else None, st1)
  }

  /** On a fresh reader the lookup finds the last page with the object
      number, and nothing when no page has it. */
  lemma LookupFindsLastPage(ids: seq<Option<int>>, id: int)
    ensures var r := GetPageNumberByIndirect(PageIndex(ids, None), IdArg(id)).0;
            (r.Some? <==> Some(id) in ids)
            && (r.Some? ==> r.value < |ids| && ids[r.value] == Some(id)
                            && forall j :: r.value < j < |ids| ==> ids[j] != Some(id))
  {
  }

  /** With distinct object numbers the lookup inverts the page list: the
      number of page `i`'s reference is `i`. */
  lemma LookupInvertsPages(ids: seq<Option<int>>, i: nat, ref: Ref)
    requires i < |ids| && ids[i] == Some(ref.idnum)
    requires forall j, k :: 0 <= j < k < |ids| && ids[j].Some? ==> ids[j] != ids[k]
    ensures GetPageNumberByIndirect(PageIndex(ids, None), RefArg(ref)).0 == Some(i)
  {
    var m := IdMap(ids);
    assert Some(ref.idnum) in ids;
    assert ids[m[ref.idnum]] == ids[i];
  }

  /** The memo is never refreshed: once built, the lookup ignores later
      changes to the page list. */
  lemma MemoIgnoresPages(st: PageIndex, ids: seq<Option<int>>, arg: PageRefArg)
    requires st.memo.Some?
    ensures GetPageNumberByIndirect(PageIndex(ids, st.memo), arg).0 == GetPageNumberByIndirect(st, arg).0
  {
  }

  // ---------------------------------------------------------------------
  // _get_xref_issues
  // ---------------------------------------------------------------------

  /** `b"xref "`, the five bytes the probe compares with. */
  const XrefProbe: seq<byte> := [120, 114, 101, 102, 32]

  /** `_get_xref_issues(stream, startxref)`: 0 when the five bytes at
      `startxref` are `xref ` and 1 otherwise; a negative offset fails the
      seek with ValueError.  Comparing bytes never decodes, so the
      UnicodeDecodeError branch (issue 2) is unreachable. */
  function XrefIssues(data: seq<byte>, startxref: int): (r: Result<int>)
    ensures startxref < 0 <==> r.Err?
    ensures r.Err? ==> r.exc == ValueError
    ensures r.Ok? ==> (r.value == 0 <==> OccursAt(data, XrefProbe, startxref)) && (r.value == 0 || r.value == 1)
  {
    if startxref < 0 then Err(ValueError)
    else
      var got := if startxref >= |data| then [] else data[startxref..Min(|data|, startxref + 5)];
      Ok(if got != XrefProbe then 1 else 0)
  }

  // ---------------------------------------------------------------------
  // add_form_topname and rename_form_topname
  // ---------------------------------------------------------------------

  /** Python's `key in o` for a string key: dictionary keys, list
      elements, or a substring of a string; TypeError on bytes and on
      objects that are not containers. */
  function PyIn(key: string, o: Obj): (r: Result<bool>)
    ensures IsDictLike(o) ==> r == Ok(key in EntriesOf(o))
  {
    match o
    case Dict(e) => Ok(key in e)
    case Stream(h, _) => Ok(key in h)
    case Array(items) => Ok(Name(key) in items || Text(key) in items)
    case Name(s) => Ok(exists i, j :: 0 <= i <= j <= |s| && s[i..j] == key)
    case Text(s) => Ok(exists i, j :: 0 <= i <= j <= |s| && s[i..j] == key)
    case _ => Err(TypeError)
  }

  /** `o[key]` for a string key on an object that passed `key in o`:
      the entry resolved through the arena, or TypeError for a list or a
      string indexed by a string. */
  function PyGet(a: Arena, o: Obj, key: string): (r: Result<Obj>)
    ensures IsDictLike(o) && key in EntriesOf(o) ==> r == Ok(GetObject(a, EntriesOf(o)[key]))
  {
    if IsDictLike(o) && key in EntriesOf(o) then Ok(GetObject(a, EntriesOf(o)[key]))
    else if IsDictLike(o) then Err(KeyError)
    else Err(TypeError)
  }

  /** The reader's state for the form edits: the object table and the
      catalog (`trailer["/Root"]`, already resolved). */
  datatype Catalog = Catalog(arena: Arena, root: map<string, Obj>)

  /** `acroform[key] = v`, written into the AcroForm dictionary wherever
      it is held: in the object table when the catalog refers to it, in
      the catalog itself otherwise. */
  function SetInAcroForm(c: Catalog, key: string, v: Obj): (r: Catalog)
    requires "/AcroForm" in c.root && IsDictLike(GetObject(c.arena, c.root["/AcroForm"]))
    ensures "/AcroForm" in r.root
    ensures var acro := GetObject(r.arena, r.root["/AcroForm"]);
            IsDictLike(acro) && EntriesOf(acro) == EntriesOf(GetObject(c.arena, c.root["/AcroForm"]))[key := v]
  {
    var held := c.root["/AcroForm"];
    var acro := GetObject(c.arena, held);
    var acro1 := if acro.Dict? then Dict(acro.entries[key := v]) else Stream(acro.header[key := v], acro.data);
    if held.Indirect? && held.ref in c.arena then Catalog(c.arena[held.ref := acro1], c.root)
    else Catalog(c.arena, c.root[("/AcroForm") := acro1])
  }

  /** `add_form_topname(name)`: None without /AcroForm or without
      /Fields; otherwise a new field named `name` whose /Kids are the old
      fields becomes the only entry of /Fields.  The new field is
      returned with the updated state. */
  function AddFormTopname(c: Catalog, name: string): (r: Result<Option<(Obj, Catalog)>>)
    ensures "/AcroForm" !in c.root ==> r == Ok(None)
    ensures "/AcroForm" in c.root && IsDictLike(GetObject(c.arena, c.root["/AcroForm"])) ==>
              var acro := EntriesOf(GetObject(c.arena, c.root["/AcroForm"]));
              ("/Fields" !in acro ==> r == Ok(None))
              && ("/Fields" in acro ==>
                    r.Ok? && r.value.Some?
                    && var (field, c1) := r.value.value;
                    field == Dict(map["/T" := Text(name), "/Kids" := GetObject(c.arena, acro["/Fields"])])
                    && "/AcroForm" in c1.root
                    && var acro1 := GetObject(c1.arena, c1.root["/AcroForm"]);
                    IsDictLike(acro1) && EntriesOf(acro1) == acro["/Fields" := Array([field])])
  {
    if "/AcroForm" !in c.root then Ok(None)
    else
      var acro := GetObject(c.arena, c.root["/AcroForm"]);
      var has :- PyIn("/Fields", acro);
      if !has then Ok(None)
      else
        var fields :- PyGet(c.arena, acro, "/Fields");
        var field := Dict(map["/T" := Text(name), "/Kids" := fields]);
        Ok(Some((field, SetInAcroForm(c, "/Fields", Array([field])))))
  }

  /** `len(o)` for the objects `len` accepts. */
  function PyLen(o: Obj): (r: Result<nat>)
  {
    match o
    case Array(items) => Ok(|items|)
    case Dict(e) => Ok(|e.Keys|)
    case Stream(h, _) => Ok(|h.Keys|)
    case Name(s) => Ok(|s|)
    case Text(s) => Ok(|s|)
    case Bytes(b) => Ok(|b|)
    case _ => Err(TypeError)
  }

  /** `rename_form_topname(name)`: only when /Fields holds exactly one
      element that is itself a dictionary (an indirect reference there is
      not, since list indexing does not resolve it) does that field get
      /T = `name`; it is returned with the updated state.  Otherwise None,
      or KeyError for a one-entry dictionary indexed by 0. */
  function RenameFormTopname(c: Catalog, name: string): (r: Result<Option<(Obj, Catalog)>>)
    ensures "/AcroForm" !in c.root ==> r == Ok(None)
    ensures "/AcroForm" in c.root && IsDictLike(GetObject(c.arena, c.root["/AcroForm"])) ==>
              var acro := EntriesOf(GetObject(c.arena, c.root["/AcroForm"]));
              ("/Fields" !in acro ==> r == Ok(None))
              && ("/Fields" in acro && GetObject(c.arena, acro["/Fields"]).Array? ==>
                    var items := GetObject(c.arena, acro["/Fields"]).items;
                    r.Ok?
                    && (r.value.Some? <==> |items| == 1 && IsDictLike(items[0]))
                    && (r.value.Some? ==>
                          var (field, c1) := r.value.value;
                          IsDictLike(field) && EntriesOf(field) == EntriesOf(items[0])["/T" := Text(name)]))
  {
    if "/AcroForm" !in c.root then Ok(None)
    else
      var acro := GetObject(c.arena, c.root["/AcroForm"]);
      var has :- PyIn("/Fields", acro);
      if !has then Ok(None)
      else
        var fields :- PyGet(c.arena, acro, "/Fields");
        var n :- PyLen(fields);
        if n != 1 then Ok(None)
        else if IsDictLike(fields) then Err(KeyError)
        else if !fields.Array? then Ok(None)
        else
          var top := fields.items[0];
          if !IsDictLike(top) then Ok(None)
          else
            var top1 := if top.Dict? then Dict(top.entries["/T" := Text(name)])
                        else Stream(top.header["/T" := Text(name)], top.data);
            var held := EntriesOf(acro)["/Fields"];
            if held.Indirect? && held.ref in c.arena then
              Ok(Some((top1, Catalog(c.arena[held.ref := Array([top1])], c.root))))
            else Ok(Some((top1, SetInAcroForm(c, "/Fields", Array([top1])))))
  }

  /** The two edits fit together: after `add_form_topname(a)`,
      `rename_form_topname(b)` finds the new top field and renames it,
      keeping the old fields as its kids. */
  lemma AddThenRename(c: Catalog, a: string, b: string)
    requires "/AcroForm" in c.root && IsDictLike(GetObject(c.arena, c.root["/AcroForm"]))
    requires "/Fields" in EntriesOf(GetObject(c.arena, c.root["/AcroForm"]))
    ensures var added := AddFormTopname(c, a);
            added.Ok? && added.value.Some?
            && var renamed := RenameFormTopname(added.value.value.1, b);
            renamed.Ok? && renamed.value.Some?
            && renamed.value.value.0
               == Dict(map["/T" := Text(b),
                           "/Kids" := GetObject(c.arena, EntriesOf(GetObject(c.arena, c.root["/AcroForm"]))["/Fields"])])
  {
    var acro := EntriesOf(GetObject(c.arena, c.root["/AcroForm"]));
    var field := Dict(map["/T" := Text(a), "/Kids" := GetObject(c.arena, acro["/Fields"])]);
    var c1 := AddFormTopname(c, a).value.value.1;
    var acro1 := GetObject(c1.arena, c1.root["/AcroForm"]);
    assert EntriesOf(acro1)["/Fields"] == Array([field]);
    assert GetObject(c1.arena, EntriesOf(acro1)["/Fields"]) == Array([field]);
    assert map["/T" := Text(a), "/Kids" := GetObject(c.arena, acro["/Fields"])]["/T" := Text(b)]
           == map["/T" := Text(b), "/Kids" := GetObject(c.arena, acro["/Fields"])];
  }
}
