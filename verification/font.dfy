/** The layout-mode font of `pypdf/_text_extraction/_layout_mode/_font.py`:
    the character widths a font declares, gathered from a simple font's
    `/Widths` array (section 9.6.2.1 of ISO 32000-1), from the `/W` arrays
    of its descendant CID fonts (section 9.7.4.3), or from a table of
    standard widths, and the width of a word as the sum of its characters'
    widths. */
module LayoutFont {
  import opened PyBase
  import opened PdfObjects
  import opened CMap

  /** A key of the width map.  Keys are Python strings; `chr` of a
      surrogate code point gives a string no text of the model contains,
      which is kept apart so that the map still counts it. */
  datatype Key = Chars(s: string) | Surrogate(code: int)

  /** Python's `chr(n)` as a width-map key; ValueError outside the code
      point range. */
  function Chr(n: int): (r: Result<Key>)
    ensures r.Ok? <==> 0 <= n <= 0x10FFFF
    ensures r.Err? ==> r.exc == ValueError
  {
    if n < 0 || n > 0x10FFFF then Err(ValueError)
    else if 0xD800 <= n <= 0xDFFF then Ok(Surrogate(n))
    else Ok(Chars([n as char]))
  }

  /** The parts of the font dictionary the widths come from: the `/Widths`
      array, the raw `/FirstChar` value (the number 0 when absent), the
      `/W` array of each descendant font (empty when a descendant has
      none), and the resolved `/BaseFont`. */
  datatype FontDict = FontDict(widths: Option<seq<Obj>>, firstChar: Obj,
                               descendants: Option<seq<seq<Obj>>>, baseFont: Option<Obj>)

  /** What the layout code uses of a `Font`: the width of a space and the
      width of every mapped character. */
  datatype Font = Font(spaceWidth: real, widthMap: map<Key, Obj>)

  predicate IsNumber(o: Obj) { o.Int? || o.Float? }

  /** `isinstance(x, Sequence)`: arrays, and the `str` and `bytes`
      subclasses. */
  predicate IsSequence(o: Obj) { o.Array? || o.Name? || o.Text? || o.Bytes? }

  /** The elements iterating a sequence yields: array items, one-character
      strings, or the byte values. */
  function Items(o: Obj): (r: seq<Obj>)
    requires IsSequence(o)
    ensures o.Array? ==> r == o.items
  {
    match o
    case Array(items) => items
    case Name(s) => seq(|s|, k requires 0 <= k < |s| => Text([s[k]]))
    case Text(s) => seq(|s|, k requires 0 <= k < |s| => Text([s[k]]))
    case Bytes(b) => seq(|b|, k requires 0 <= k < |b| => Int(b[k]))
  }

  // ---------------------------------------------------------------------
  // /Widths of a simple font
  // ---------------------------------------------------------------------

  /** The key entry `idx` of `/Widths` gets: the encoding's character for
      code `idx + first`, else `chr(idx + first)`.  The `chr` default is
      evaluated even when the encoding has the code. */
  function WidthKey(table: map<int, string>, first: int, idx: int): (r: Result<Key>)
    ensures r.Ok? <==> Chr(idx + first).Ok?
    ensures r.Ok? && idx + first in table ==> r.value == Chars(table[idx + first])
  {
    var default :- Chr(idx + first);
    Ok(if idx + first in table then Chars(table[idx + first]) else default)
  }

  /** The dictionary comprehension over the first `n` widths: each key
      gets its width, a later entry overwriting an earlier one with the
      same key. */
  function WidthsPrefix(table: map<int, string>, first: int, widths: seq<Obj>, n: nat): (r: Result<map<Key, Obj>>)
    requires n <= |widths|
    ensures r.Ok? <==> forall i :: 0 <= i < n ==> WidthKey(table, first, i).Ok?
    ensures r.Ok? && n > 0 ==> WidthKey(table, first, n - 1).value in r.value
  {
    if n == 0 then Ok(map[])
    else
      var m :- WidthsPrefix(table, first, widths, n - 1);
      var k :- WidthKey(table, first, n - 1);
      Ok(m[k := widths[n - 1]])
  }

  /** Exactly the entries' keys are in the map. */
  lemma {:induction false} WidthsPrefixKeys(table: map<int, string>, first: int, widths: seq<Obj>, n: nat)
    requires n <= |widths| && WidthsPrefix(table, first, widths, n).Ok?
    ensures forall key :: key in WidthsPrefix(table, first, widths, n).value <==>
              exists i :: 0 <= i < n && WidthKey(table, first, i) == Ok(key)
  {
    if n > 0 {
      WidthsPrefixKeys(table, first, widths, n - 1);
      assert WidthKey(table, first, n - 1) == Ok(WidthKey(table, first, n - 1).value);
    }
  }

  /** Each entry's key carries the width of the last entry with that key. */
  lemma {:induction false} WidthsPrefixLastWins(table: map<int, string>, first: int, widths: seq<Obj>, n: nat, i: nat)
    requires i < n <= |widths| && WidthsPrefix(table, first, widths, n).Ok?
    requires forall j :: i < j < n ==> WidthKey(table, first, j) != WidthKey(table, first, i)
    ensures WidthKey(table, first, i).Ok? && WidthKey(table, first, i).value in WidthsPrefix(table, first, widths, n).value
    ensures WidthsPrefix(table, first, widths, n).value[WidthKey(table, first, i).value] == widths[i]
  {
    WidthsPrefixKeys(table, first, widths, n);
    assert WidthKey(table, first, i) == Ok(WidthKey(table, first, i).value);
    if i < n - 1 {
      WidthsPrefixLastWins(table, first, widths, n - 1, i);
      assert WidthKey(table, first, n - 1) != WidthKey(table, first, i);
    }
  }

  // ---------------------------------------------------------------------
  // /W of a CID font
  // ---------------------------------------------------------------------

  /** `ord_map`: each one-character key of the character map by its code;
      a longer key makes `ord` raise TypeError. */
  function OrdMap(charMap: CharMap): (r: Result<map<int, string>>)
    ensures r.Ok? <==> forall t :: t in charMap ==> |t| == 1
    ensures r.Ok? ==> forall t :: t in charMap ==> t[0] as int in r.value && r.value[t[0] as int] == charMap[t]
    ensures r.Ok? ==> forall c :: c in r.value ==> exists t :: t in charMap && t[0] as int == c
  {
    if exists t :: t in charMap && |t| != 1 then Err(TypeError)
    else
      assert forall t :: t in charMap ==> t == [t[0]];
      Ok(map t | t in charMap :: t[0] as int := charMap[t])
  }

  /** `start [w0 w1 ...]`: the CIDs `start + k` the character map covers
      get width `wk`, in order. */
  function ZipWidths(m: map<Key, Obj>, ord: map<int, string>, start: int, ws: seq<Obj>, k: nat): (r: map<Key, Obj>)
    requires k <= |ws|
    decreases |ws| - k
  {
    if k == |ws| then m
    else
      var c := start + k;
      ZipWidths(if c in ord then m[Chars(ord[c]) := ws[k]] else m, ord, start, ws, k + 1)
  }

  /** The zip adds exactly the characters of the mapped CIDs of
      `start+k .. start+|ws|-1` to the keys. */
  lemma {:induction false} ZipWidthsKeys(m: map<Key, Obj>, ord: map<int, string>, start: int, ws: seq<Obj>, k: nat)
    requires k <= |ws|
    ensures forall key :: key in ZipWidths(m, ord, start, ws, k) <==>
              key in m || exists c :: c in ord && start + k <= c < start + |ws| && Chars(ord[c]) == key
    decreases |ws| - k
  {
    if k < |ws| {
      var c := start + k;
      ZipWidthsKeys(if c in ord then m[Chars(ord[c]) := ws[k]] else m, ord, start, ws, k + 1);
    }
  }

  /** A key none of those CIDs maps to keeps its width. */
  lemma {:induction false} ZipWidthsUntouched(m: map<Key, Obj>, ord: map<int, string>, start: int, ws: seq<Obj>, k: nat, key: Key)
    requires k <= |ws| && key in m
    requires forall c :: c in ord && start + k <= c < start + |ws| ==> Chars(ord[c]) != key
    ensures key in ZipWidths(m, ord, start, ws, k) && ZipWidths(m, ord, start, ws, k)[key] == m[key]
    decreases |ws| - k
  {
    if k < |ws| {
      var c := start + k;
      ZipWidthsUntouched(if c in ord then m[Chars(ord[c]) := ws[k]] else m, ord, start, ws, k + 1, key);
    }
  }

  /** A mapped CID gets its width `ws[c - start]` unless a later CID of the
      zip maps to the same character. */
  lemma {:induction false} ZipWidthsAssigned(m: map<Key, Obj>, ord: map<int, string>, start: int, ws: seq<Obj>, k: nat, c: int)
    requires k <= |ws| && c in ord && start + k <= c < start + |ws|
    requires forall c' :: c' in ord && c < c' < start + |ws| ==> ord[c'] != ord[c]
    ensures Chars(ord[c]) in ZipWidths(m, ord, start, ws, k)
    ensures ZipWidths(m, ord, start, ws, k)[Chars(ord[c])] == ws[c - start]
    decreases |ws| - k
  {
    var d := start + k;
    var m' := if d in ord then m[Chars(ord[d]) := ws[k]] else m;
    if d < c {
      ZipWidthsAssigned(m', ord, start, ws, k + 1, c);
    } else {
      ZipWidthsUntouched(m', ord, start, ws, k + 1, Chars(ord[c]));
    }
  }

  /** `start stop w`: every mapped CID from `start` to `stop` gets width
      `w`. */
  function FillRange(m: map<Key, Obj>, ord: map<int, string>, c: int, stop: int, w: Obj): (r: map<Key, Obj>)
    decreases stop + 1 - c
  {
    if c > stop then m
    else FillRange(if c in ord then m[Chars(ord[c]) := w] else m, ord, c + 1, stop, w)
  }

  /** The range fill gives `w` to exactly the characters of the mapped
      CIDs in `c..stop` and keeps every other key. */
  lemma {:induction false} FillRangeContents(m: map<Key, Obj>, ord: map<int, string>, c: int, stop: int, w: Obj)
    ensures var r := FillRange(m, ord, c, stop, w);
            (forall key :: key in r <==> key in m || exists d :: c <= d <= stop && d in ord && Chars(ord[d]) == key)
            && (forall key :: key in r && !(exists d :: c <= d <= stop && d in ord && Chars(ord[d]) == key)
                  ==> r[key] == m[key])
            && (forall d :: c <= d <= stop && d in ord ==> r[Chars(ord[d])] == w)
    decreases stop + 1 - c
  {
    if c <= stop {
      var m' := if c in ord then m[Chars(ord[c]) := w] else m;
      FillRangeContents(m', ord, c + 1, stop, w);
      var r := FillRange(m, ord, c, stop, w);
      forall key | key in r && !(exists d :: c <= d <= stop && d in ord && Chars(ord[d]) == key)
        ensures r[key] == m[key]
      {
        assert !(exists d :: c + 1 <= d <= stop && d in ord && Chars(ord[d]) == key);
        if c in ord { assert Chars(ord[c]) != key; }
      }
    }
  }

  /** The loop over one `/W` array from entry `idx`, with `skip` entries
      still to pass over: a number followed by a sequence starts a list of
      widths, a number followed by two non-sequences is a range with one
      width, and anything else is passed over.  Reading past the end
      raises IndexError, and a range bound that is not an integer raises
      TypeError. */
  function WLoop(w: seq<Obj>, idx: nat, skip: nat, ord: map<int, string>, m: map<Key, Obj>): (r: Result<map<Key, Obj>>)
    decreases |w| - idx
  {
    if idx >= |w| then Ok(m)
    else if skip > 0 then WLoop(w, idx + 1, skip - 1, ord, m)
    else if !IsNumber(w[idx]) then WLoop(w, idx + 1, 0, ord, m)
    else if idx + 1 >= |w| then Err(IndexError)
    else if IsSequence(w[idx + 1]) then
      if !w[idx].Int? then Err(TypeError)
      else WLoop(w, idx + 1, 1, ord, ZipWidths(m, ord, w[idx].i, Items(w[idx + 1]), 0))
    else if idx + 2 >= |w| then Err(IndexError)
    else if IsSequence(w[idx + 2]) then WLoop(w, idx + 1, 0, ord, m)
    else if !w[idx].Int? || !w[idx + 1].Int? then Err(TypeError)
    else WLoop(w, idx + 1, 2, ord, FillRange(m, ord, w[idx].i, w[idx + 1].i, w[idx + 2]))
  }

  /** The two shapes of a `/W` array, each read on its own: `start [w…]`
      assigns `wk` to CID `start + k`, and `start stop w` assigns `w` to
      every CID from `start` to `stop`, both only for CIDs the character
      map covers. */
  lemma WShapes(ord: map<int, string>, m: map<Key, Obj>, start: int, stop: int, ws: seq<Obj>, w: Obj)
    requires !IsSequence(w)
    ensures WLoop([Int(start), Array(ws)], 0, 0, ord, m) == Ok(ZipWidths(m, ord, start, ws, 0))
    ensures WLoop([Int(start), Int(stop), w], 0, 0, ord, m) == Ok(FillRange(m, ord, start, stop, w))
  {
    var m1 := ZipWidths(m, ord, start, ws, 0);
    assert WLoop([Int(start), Array(ws)], 1, 1, ord, m1) == WLoop([Int(start), Array(ws)], 2, 0, ord, m1);
    var m2 := FillRange(m, ord, start, stop, w);
    assert WLoop([Int(start), Int(stop), w], 1, 2, ord, m2) == WLoop([Int(start), Int(stop), w], 2, 1, ord, m2);
    assert WLoop([Int(start), Int(stop), w], 2, 1, ord, m2) == WLoop([Int(start), Int(stop), w], 3, 0, ord, m2);
  }

  /** The descendant fonts in order, each with the `ord_map` of the
      character map. */
  function Descendants(ws: seq<seq<Obj>>, charMap: CharMap, m: map<Key, Obj>): (r: Result<map<Key, Obj>>)
    ensures |ws| > 0 && OrdMap(charMap).Err? ==> r == Err(TypeError)
    ensures ws == [] ==> r == Ok(m)
  {
    if ws == [] then Ok(m)
    else
      var ord :- OrdMap(charMap);
      var m' :- WLoop(ws[0], 0, 0, ord, m);
      Descendants(ws[1..], charMap, m')
  }

  // ---------------------------------------------------------------------
  // The Font constructor
  // ---------------------------------------------------------------------

  /** `/BaseFont` starts with `/` and the key. */
  predicate Matches(base: Obj, key: string)
    requires IsStr(base)
  {
    var s := StrOf(base);
    |s| >= |key| + 1 && s[..|key| + 1] == "/" + key
  }

  /** The first standard table whose name the base font starts with.  A
      byte string has `startswith` but refuses a `str` prefix (TypeError);
      any other object that is not a string has no `startswith`
      (AttributeError). */
  function StandardFor(base: Obj, standard: seq<(string, map<Key, Obj>)>): (r: Result<Option<map<Key, Obj>>>)
    ensures r.Err? <==> standard != [] && !IsStr(base)
    ensures r.Err? ==> r.exc == (if base.Bytes? then TypeError else AttributeError)
    ensures r.Ok? && r.value.Some? ==>
              IsStr(base) && (exists i :: 0 <= i < |standard| && Matches(base, standard[i].0) && r.value.value == standard[i].1
                                && forall j :: 0 <= j < i ==> !Matches(base, standard[j].0))
    ensures r == Ok(None) <==> standard == [] || (IsStr(base) && forall i :: 0 <= i < |standard| ==> !Matches(base, standard[i].0))
  {
    if standard == [] then Ok(None)
    else if base.Bytes? then Err(TypeError)
    else if !IsStr(base) then Err(AttributeError)
    else if Matches(base, standard[0].0) then Ok(Some(standard[0].1))
    else
      assert forall i :: 1 <= i < |standard| ==> standard[i] == standard[1..][i - 1];
      StandardFor(base, standard[1..])
  }

  /** `Font(subtype, space_width, encoding, char_map, font_dictionary)`:
      the width map from `/Widths` when the encoding is a code table, then
      from the descendants' `/W` arrays, and, when it is still empty and
      the font names a base font, from the first matching table of
      standard widths (`STANDARD_WIDTHS`, a parameter here). */
  function NewFont(spaceWidth: real, encoding: Encoding, charMap: CharMap, fd: FontDict,
                   standard: seq<(string, map<Key, Obj>)>): (r: Result<Font>)
    ensures r.Ok? ==> r.value.spaceWidth == spaceWidth
    ensures r.Ok? && fd.descendants.None? && encoding.EncodingTable? && fd.widths.Some? && fd.firstChar.Int?
            && |fd.widths.value| > 0 ==>
              WidthsPrefix(encoding.table, fd.firstChar.i, fd.widths.value, |fd.widths.value|) == Ok(r.value.widthMap)
    ensures r.Ok? && fd.baseFont.None? && !(encoding.EncodingTable? && fd.widths.Some?) && fd.descendants.None?
            ==> r.value.widthMap == map[]
  {
    var m0 :-
      if encoding.EncodingTable? && fd.widths.Some? then
        if fd.widths.value == [] then Ok(map[])
        else if !fd.firstChar.Int? then Err(TypeError)
        else WidthsPrefix(encoding.table, fd.firstChar.i, fd.widths.value, |fd.widths.value|)
      else Ok(map[]);
    var m1 :- if fd.descendants.Some? then Descendants(fd.descendants.value, charMap, m0) else Ok(m0);
    if m1 == map[] && fd.baseFont.Some? then
      var s :- StandardFor(fd.baseFont.value, standard);
      Ok(Font(spaceWidth, if s.Some? then s.value else m1))
    else Ok(Font(spaceWidth, m1))
  }

  /** A simple font with `/Widths` keeps every declared key: the standard
      widths never replace them. */
  lemma DeclaredWidthsKept(spaceWidth: real, encoding: Encoding, charMap: CharMap, fd: FontDict,
                              standard: seq<(string, map<Key, Obj>)>, i: nat)
    requires fd.descendants.None? && encoding.EncodingTable? && fd.widths.Some? && fd.firstChar.Int?
    requires i < |fd.widths.value| && Chr(i + fd.firstChar.i).Ok?
    requires NewFont(spaceWidth, encoding, charMap, fd, standard).Ok?
    ensures WidthKey(encoding.table, fd.firstChar.i, i).value in NewFont(spaceWidth, encoding, charMap, fd, standard).value.widthMap
    ensures (forall j :: i < j < |fd.widths.value| ==> WidthKey(encoding.table, fd.firstChar.i, j) != WidthKey(encoding.table, fd.firstChar.i, i))
            ==> NewFont(spaceWidth, encoding, charMap, fd, standard).value.widthMap[WidthKey(encoding.table, fd.firstChar.i, i).value]
                == fd.widths.value[i]
  {
    var ws := fd.widths.value;
    WidthsPrefixKeys(encoding.table, fd.firstChar.i, ws, |ws|);
    if forall j :: i < j < |ws| ==> WidthKey(encoding.table, fd.firstChar.i, j) != WidthKey(encoding.table, fd.firstChar.i, i) {
      WidthsPrefixLastWins(encoding.table, fd.firstChar.i, ws, |ws|, i);
    }
  }

  /** A font that declares no widths takes the first standard table its
      base font name starts with, and stays without widths when none
      matches. */
  lemma StandardFallback(spaceWidth: real, encoding: Encoding, charMap: CharMap, fd: FontDict,
                         standard: seq<(string, map<Key, Obj>)>)
    requires !(encoding.EncodingTable? && fd.widths.Some?) && fd.descendants.None? && fd.baseFont.Some?
    ensures NewFont(spaceWidth, encoding, charMap, fd, standard).Ok? <==> StandardFor(fd.baseFont.value, standard).Ok?
    ensures StandardFor(fd.baseFont.value, standard).Ok? ==>
              NewFont(spaceWidth, encoding, charMap, fd, standard).value.widthMap ==
                (match StandardFor(fd.baseFont.value, standard).value
                 case Some(t) => t
                 case None => map[])
  {
  }

  // ---------------------------------------------------------------------
  // word_width
  // ---------------------------------------------------------------------

  /** The width of one character: its mapped width, else the space width;
      a width that is not a number makes the sum raise TypeError. */
  function CharWidth(font: Font, c: char): Result<real>
  {
    var key := Chars([c]);
    if key !in font.widthMap then Ok(font.spaceWidth)
    else
      var w := font.widthMap[key];
      if w.Int? then Ok(w.i as real) else if w.Float? then Ok(w.r) else Err(TypeError)
  }

  /** `word_width(word)`: the sum of the character widths. */
  function WordWidth(font: Font, word: string): (r: Result<real>)
    ensures word == "" ==> r == Ok(0.0)
  {
    if word == "" then Ok(0.0)
    else
      var w :- CharWidth(font, word[0]);
      var rest :- WordWidth(font, word[1..]);
      assert forall k :: 0 <= k < |word| - 1 ==> word[1..][k] == word[k + 1];
      Ok(w + rest)
  }

  /** The width of a concatenation is the sum of the widths. */
  lemma {:induction false} WordWidthAdditive(font: Font, u: string, v: string)
    ensures WordWidth(font, u + v).Ok? <==> WordWidth(font, u).Ok? && WordWidth(font, v).Ok?
    ensures WordWidth(font, u + v).Ok? ==>
              WordWidth(font, u + v).value == WordWidth(font, u).value + WordWidth(font, v).value
  {
    if u == [] {
      assert u + v == v;
    } else {
      assert (u + v)[0] == u[0];
      assert (u + v)[1..] == u[1..] + v;
      WordWidthAdditive(font, u[1..], v);
    }
  }

  /** A word of characters without a mapped width is as wide as that many
      spaces. */
  lemma {:induction false} WordWidthUnmapped(font: Font, word: string)
    requires forall k :: 0 <= k < |word| ==> Chars([word[k]]) !in font.widthMap
    ensures WordWidth(font, word).Ok? && WordWidth(font, word).value == (|word| as real) * font.spaceWidth
  {
    if word != "" {
      assert forall k :: 0 <= k < |word| - 1 ==> word[1..][k] == word[k + 1];
      var rest := word[1..];
      WordWidthUnmapped(font, rest);
      assert Chars([word[0]]) !in font.widthMap;
      assert WordWidth(font, word).value == font.spaceWidth + (|rest| as real) * font.spaceWidth;
      assert (|word| as real) * font.spaceWidth == font.spaceWidth + (|rest| as real) * font.spaceWidth;
    }
  }
}
