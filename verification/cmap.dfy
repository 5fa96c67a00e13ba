/** Font information gathering of `pypdf/_cmap.py`: which font dictionary a
    page's resources name, its subtype, the encoding it declares (with the
    predefined CMap names of section 9.7.5.2 of ISO 32000-1 translated to
    Python codec names), its ToUnicode character map, and the width of a
    space.  The ToUnicode parser itself is a parameter. */
module CMap {
  import opened PyBase
  import opened PdfObjects

  /** The character map a ToUnicode stream yields: code text to text. */
  type CharMap = map<string, string>

  /** The `encoding` member: a codec or encoding name (a Python `str`), the
      code table of the unknown-font fallback, or any other object the
      font dictionary holds there, passed through unchanged. */
  datatype Encoding = EncodingName(name: string) | EncodingTable(table: map<int, string>) | EncodingObj(o: Obj)

  /** `(subtype, space_width, encoding, char_map)`. */
  datatype FontInfo = FontInfo(subtype: Obj, spaceWidth: real, encoding: Encoding, charMap: CharMap)

  /** `_predefined_cmap`: the predefined CMaps the library knows, by the
      Python codec that decodes them. */
  const PredefinedCMap: map<string, string> := map[
    "/Identity-H" := "utf-16-be", "/Identity-V" := "utf-16-be",
    "/GB-EUC-H" := "gbk", "/GB-EUC-V" := "gbk",
    "/GBpc-EUC-H" := "gb2312", "/GBpc-EUC-V" := "gb2312",
    "/GBK-EUC-H" := "gbk", "/GBK-EUC-V" := "gbk",
    "/GBK2K-H" := "gb18030", "/GBK2K-V" := "gb18030",
    "/ETen-B5-H" := "cp950", "/ETen-B5-V" := "cp950",
    "/ETenms-B5-H" := "cp950", "/ETenms-B5-V" := "cp950",
    "/UniCNS-UTF16-H" := "utf-16-be", "/UniCNS-UTF16-V" := "utf-16-be"]

  /** The codes `0..n-1` of the unknown font, each mapped to U+FFFD. */
  function ReplacementTable(n: nat): (r: map<int, string>)
    ensures forall k :: k in r <==> 0 <= k < n
    ensures forall k :: k in r ==> r[k] == "\U{FFFD}"
  {
    if n == 0 then map[] else ReplacementTable(n - 1)[n - 1 := "\U{FFFD}"]
  }

  /** `unknown_char_map`: subtype "Unknown", space width 9999, every byte
      code shown as U+FFFD, and no character map. */
  const Unknown: FontInfo := FontInfo(Text("Unknown"), 9999.0, EncodingTable(ReplacementTable(256)), map[])

  /** `o[key]` on a dictionary object: the resolved value, KeyError when
      the key is absent, TypeError when `o` is not a dictionary. */
  function Lookup(arena: Arena, o: Obj, key: string): (r: Result<Obj>)
    ensures r.Ok? <==> IsDictLike(o) && key in EntriesOf(o)
    ensures r.Ok? ==> r.value == GetObject(arena, EntriesOf(o)[key])
    ensures r.Err? ==> r.exc == (if IsDictLike(o) then KeyError else TypeError)
  {
    if !IsDictLike(o) then Err(TypeError)
    else if key !in EntriesOf(o) then Err(KeyError)
    else Ok(GetObject(arena, EntriesOf(o)[key]))
  }

  /** The encoding a font dictionary declares: the `/Encoding` entry or a
      dictionary's `/BaseEncoding` (an empty string when absent); then a
      predefined CMap name becomes its codec and any other name loses its
      leading slash.  An array or dictionary cannot be looked up in the
      table of predefined CMaps and raises TypeError. */
  function EncodingOf(arena: Arena, entries: map<string, Obj>): (r: Result<Encoding>)
    ensures "/Encoding" !in entries ==> r == Ok(EncodingName("utf-8"))
    ensures "/Encoding" in entries && IsStr(GetObject(arena, entries["/Encoding"])) ==>
              var s := StrOf(GetObject(arena, entries["/Encoding"]));
              r == Ok(EncodingName(if s in PredefinedCMap then PredefinedCMap[s]
                                   else if |s| > 0 && s[0] == '/' then s[1..] else s))
  {
    if "/Encoding" !in entries then Ok(EncodingName("utf-8"))
    else
      var e := GetObject(arena, entries["/Encoding"]);
      var e' := if IsDictLike(e) then DictGet(EntriesOf(e), "/BaseEncoding", Text("")) else e;
      if e'.Array? || IsDictLike(e') then Err(TypeError)
      else if IsStr(e') then
        var s := StrOf(e');
        Ok(EncodingName(if s in PredefinedCMap then PredefinedCMap[s]
                        else if |s| > 0 && s[0] == '/' then s[1..] else s))
      else Ok(EncodingObj(e'))
  }

  /** Half the width the font gives to character 32, when `/FirstChar`,
      `/LastChar` and `/Widths` are all present, 32 lies between the first
      and last character, and `/Widths` is long enough to reach it; the
      given default otherwise. */
  function SpaceWidthOf(arena: Arena, entries: map<string, Obj>, default: real): (r: Result<real>)
    ensures !("/FirstChar" in entries && "/LastChar" in entries && "/Widths" in entries) ==> r == Ok(default)
    ensures r.Err? ==> r.exc == TypeError || r.exc == KeyError
  {
    if "/FirstChar" in entries && "/LastChar" in entries && "/Widths" in entries then
      var first := GetObject(arena, entries["/FirstChar"]);
      var last := GetObject(arena, entries["/LastChar"]);
      var widths := GetObject(arena, entries["/Widths"]);
      if !first.Int? || !last.Int? then Err(TypeError)
      else if !(first.i <= 32 <= last.i) then Ok(default)
      else
        match PyLen(widths)
        case None => Err(TypeError)
        case Some(n) =>
          var k := 32 - first.i;
          if k < n then
            var w :- PyIndex(widths, k);
            if IsNumber(w) then Ok(NumberValue(w) / 2.0) else Err(TypeError)
          else Ok(default)
    else Ok(default)
  }

  /** The space width is half the declared width of character 32 exactly
      when the font declares one; otherwise the default survives.  `/Widths`
      is used through `len` and subscripting whatever it holds: a
      dictionary or string too short to reach character 32 keeps the
      default, a dictionary that reaches it raises KeyError, and a byte
      string gives half the byte's value. */
  lemma SpaceWidthHalves(arena: Arena, entries: map<string, Obj>, default: real)
    requires "/FirstChar" in entries && "/LastChar" in entries && "/Widths" in entries
    requires GetObject(arena, entries["/FirstChar"]).Int? && GetObject(arena, entries["/LastChar"]).Int?
    ensures var first := GetObject(arena, entries["/FirstChar"]).i;
            var last := GetObject(arena, entries["/LastChar"]).i;
            var ws := GetObject(arena, entries["/Widths"]);
            var r := SpaceWidthOf(arena, entries, default);
            if !(first <= 32 <= last) then r == Ok(default)
            else if PyLen(ws).None? then r == Err(TypeError)
            else if 32 - first >= PyLen(ws).value then r == Ok(default)
            else if IsDictLike(ws) then r == Err(KeyError)
            else
              var w := PyIndex(ws, 32 - first).value;
              (IsNumber(w) ==> r == Ok(NumberValue(w) / 2.0)) && (!IsNumber(w) ==> r == Err(TypeError))
  {
  }

  /** A byte string as `/Widths` gives half the byte at character 32; a
      string gives one-character strings, which cannot be halved. */
  lemma SpaceWidthFromSequence(arena: Arena, entries: map<string, Obj>, default: real, first: int)
    requires "/FirstChar" in entries && "/LastChar" in entries && "/Widths" in entries
    requires GetObject(arena, entries["/FirstChar"]) == Int(first) && first <= 32
    requires GetObject(arena, entries["/LastChar"]).Int? && 32 <= GetObject(arena, entries["/LastChar"]).i
    ensures var ws := GetObject(arena, entries["/Widths"]);
            (ws.Bytes? && 32 - first < |ws.bytes| ==>
               SpaceWidthOf(arena, entries, default) == Ok(ws.bytes[32 - first] as real / 2.0))
            && (IsStr(ws) && 32 - first < |StrOf(ws)| ==> SpaceWidthOf(arena, entries, default) == Err(TypeError))
            && (IsDictLike(ws) ==>
                  SpaceWidthOf(arena, entries, default)
                  == if 32 - first < |EntriesOf(ws)| then Err(KeyError) else Ok(default))
  {
  }

  /** `build_char_map_from_dict(space_width, ft)`.  The ToUnicode parser is
      the parameter `parse`: it receives the resolved `/ToUnicode` object
      and yields None where the library's parser (or the decoding before
      it) raises, which the library logs and ignores. */
  function FromDict(arena: Arena, ft: Obj, spaceWidth: real, parse: Obj -> Option<CharMap>): (r: Result<FontInfo>)
    ensures !IsDictLike(ft) ==> r == Err(AttributeError)
    ensures IsDictLike(ft) ==>
              (r.Ok? <==> EncodingOf(arena, EntriesOf(ft)).Ok? && SpaceWidthOf(arena, EntriesOf(ft), spaceWidth).Ok?)
    ensures r.Ok? ==>
              var e := EntriesOf(ft);
              r.value.subtype == DictGet(e, "/Subtype", Text(""))
              && r.value.encoding == EncodingOf(arena, e).value
              && r.value.spaceWidth == SpaceWidthOf(arena, e, spaceWidth).value
              && ("/ToUnicode" !in e ==> r.value.charMap == map[])
              && ("/ToUnicode" in e && parse(GetObject(arena, e["/ToUnicode"])).None? ==> r.value.charMap == map[])
              && ("/ToUnicode" in e && parse(GetObject(arena, e["/ToUnicode"])).Some? ==>
                    r.value.charMap == parse(GetObject(arena, e["/ToUnicode"])).value)
  {
    if !IsDictLike(ft) then Err(AttributeError)
    else
      var e := EntriesOf(ft);
      var encoding :- EncodingOf(arena, e);
      var charMap := if "/ToUnicode" in e then
                       match parse(GetObject(arena, e["/ToUnicode"]))
                       case Some(m) => m
                       case None => map[]
                     else map[];
      var space :- SpaceWidthOf(arena, e, spaceWidth);
      Ok(FontInfo(DictGet(e, "/Subtype", Text("")), space, encoding, charMap))
  }

  /** `obj["/Resources"]["/Font"][font_name]`, each step resolved. */
  function FontLookup(arena: Arena, obj: Obj, fontName: string): (r: Result<Obj>)
    ensures r.Ok? ==> exists res, fonts :: Lookup(arena, obj, "/Resources") == Ok(res)
                        && Lookup(arena, res, "/Font") == Ok(fonts) && Lookup(arena, fonts, fontName) == r
  {
    var res :- Lookup(arena, obj, "/Resources");
    var fonts :- Lookup(arena, res, "/Font");
    Lookup(arena, fonts, fontName)
  }

  /** `build_char_map(font_name, space_width, obj)`: the information about
      the font named in `obj["/Resources"]["/Font"]` together with its
      dictionary, or the unknown font and a null object when one of those
      keys is missing.  Other failures of the lookup (a non-dictionary on
      the way) are not caught. */
  function BuildCharMap(arena: Arena, fontName: string, spaceWidth: real, obj: Obj, parse: Obj -> Option<CharMap>): (r: Result<(FontInfo, Obj)>)
    ensures var f := FontLookup(arena, obj, fontName);
            (f.Err? && f.exc == KeyError ==> r == Ok((Unknown, Null)))
            && (f.Err? && f.exc != KeyError ==> r == Err(f.exc))
            && (f.Ok? ==> (r.Ok? <==> FromDict(arena, f.value, spaceWidth, parse).Ok?))
            && (f.Ok? && r.Ok? ==> r.value == (FromDict(arena, f.value, spaceWidth, parse).value, f.value))
  {
    var found := FontLookup(arena, obj, fontName);
    if found.Err? && found.exc == KeyError then Ok((Unknown, Null))
    else if found.Err? then Err(found.exc)
    else
      var info :- FromDict(arena, found.value, spaceWidth, parse);
      Ok((info, found.value))
  }
}
