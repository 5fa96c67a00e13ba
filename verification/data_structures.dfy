/** Dictionary and array objects of `pypdf/generic/_data_structures.py`:
    item access and assignment, inheritance through `/Parent`, cloning,
    the concatenation of an array of content streams, and the shaping of a
    destination's arguments by its fit type (section 12.3.2.2 of
    ISO 32000-1). */
module DataStructures {
  import opened PyBase
  import opened PdfObjects

  // ---------------------------------------------------------------------
  // __getitem__ / __setitem__
  // ---------------------------------------------------------------------

  /** A dictionary key as Python passes it: a `NameObject`, or a Python
      value that is not a `PdfObject` (a plain `str`, `None`, ...). */
  datatype Key = NameKey(name: string) | PlainKey

  /** A value as Python passes it: a `PdfObject`, or a Python value that is
      not one (`None`, a plain `int`, ...). */
  datatype Value = PdfValue(o: Obj) | PlainValue

  /** `d[key]`: the stored value resolved through the arena, KeyError when
      absent. */
  function GetItem(arena: Arena, d: map<string, Obj>, key: string): (r: Result<Obj>)
    ensures r.Ok? <==> key in d
    ensures r.Err? ==> r.exc == KeyError
  {
    if key in d then Ok(GetObject(arena, d[key])) else Err(KeyError)
  }

  /** `d[key] = value`: both must be PDF objects, otherwise ValueError; the
      entry is stored as given, not resolved. */
  function SetItem(d: map<string, Obj>, key: Key, value: Value): (r: Result<map<string, Obj>>)
    ensures r.Ok? <==> key.NameKey? && value.PdfValue?
    ensures r.Err? ==> r.exc == ValueError
    ensures r.Ok? ==> key.name in r.value && r.value[key.name] == value.o
    ensures r.Ok? ==> forall k :: k != key.name ==> (k in r.value <==> k in d)
    ensures r.Ok? ==> forall k :: k != key.name && k in d ==> r.value[k] == d[k]
  {
    if key.PlainKey? || value.PlainValue? then Err(ValueError)
    else Ok(d[key.name := value.o])
  }

  /** Reading back an entry just stored yields the stored object, resolved;
      every other entry reads as before; and `None` can never be stored. */
  lemma SetThenGet(arena: Arena, d: map<string, Obj>, k: string, v: Obj, other: string)
    requires other != k
    ensures SetItem(d, NameKey(k), PdfValue(v)).Ok?
    ensures GetItem(arena, SetItem(d, NameKey(k), PdfValue(v)).value, k) == Ok(GetObject(arena, v))
    ensures GetItem(arena, SetItem(d, NameKey(k), PdfValue(v)).value, other) == GetItem(arena, d, other)
    ensures SetItem(d, NameKey(k), PlainValue) == Err(ValueError)
  {
  }

  // ---------------------------------------------------------------------
  // get_inherited
  // ---------------------------------------------------------------------

  /** The dictionary `/Parent` resolves to, when it resolves to one. */
  function ParentOf(arena: Arena, d: map<string, Obj>): (r: Option<map<string, Obj>>)
    ensures r.Some? <==> "/Parent" in d && IsDictLike(GetObject(arena, d["/Parent"]))
  {
    if "/Parent" in d && IsDictLike(GetObject(arena, d["/Parent"]))
    then Some(EntriesOf(GetObject(arena, d["/Parent"])))
    else None
  }

  /** `d.get_inherited(key, default)`, climbing at most `fuel` parents.  The
      library has no bound: on a cyclic `/Parent` chain without the key it
      recurses until Python's recursion limit.  None stands for "more than
      `fuel` levels". */
  function GetInherited(arena: Arena, d: map<string, Obj>, key: string, default: Obj, fuel: nat): (r: Option<Obj>)
    ensures key in d ==> r == Some(GetObject(arena, d[key]))
    ensures key !in d && ParentOf(arena, d).None? ==> r == Some(default)
    decreases fuel
  {
    if key in d then Some(GetObject(arena, d[key]))
    else match ParentOf(arena, d)
      case None => Some(default)
      case Some(p) => if fuel == 0 then None else GetInherited(arena, p, key, default, fuel - 1)
  }

  /** The `k`-th dictionary up the `/Parent` chain (`d` itself at 0). */
  function Ancestor(arena: Arena, d: map<string, Obj>, k: nat): Option<map<string, Obj>>
    decreases k
  {
    if k == 0 then Some(d)
    else match ParentOf(arena, d)
      case None => None
      case Some(p) => Ancestor(arena, p, k - 1)
  }

  /** The inherited value is the one the nearest ancestor holding the key
      holds, given enough fuel to climb to it. */
  lemma {:induction false} InheritedFromNearest(arena: Arena, d: map<string, Obj>, key: string, default: Obj, k: nat, fuel: nat)
    requires Ancestor(arena, d, k).Some? && key in Ancestor(arena, d, k).value
    requires forall j :: 0 <= j < k && Ancestor(arena, d, j).Some? ==> key !in Ancestor(arena, d, j).value
    requires k <= fuel
    ensures GetInherited(arena, d, key, default, fuel) == Some(GetObject(arena, Ancestor(arena, d, k).value[key]))
    decreases k
  {
    if k > 0 {
      assert Ancestor(arena, d, 0) == Some(d);
      var p := ParentOf(arena, d).value;
      forall j | 0 <= j < k - 1 && Ancestor(arena, p, j).Some?
        ensures key !in Ancestor(arena, p, j).value
      {
        assert Ancestor(arena, d, j + 1) == Ancestor(arena, p, j);
      }
      InheritedFromNearest(arena, p, key, default, k - 1, fuel - 1);
    }
  }

  /** The default comes back when the chain ends, after `k` dictionaries,
      without any of them holding the key. */
  lemma {:induction false} InheritedDefault(arena: Arena, d: map<string, Obj>, key: string, default: Obj, k: nat, fuel: nat)
    requires Ancestor(arena, d, k).Some? && ParentOf(arena, Ancestor(arena, d, k).value).None?
    requires forall j :: 0 <= j <= k && Ancestor(arena, d, j).Some? ==> key !in Ancestor(arena, d, j).value
    requires k <= fuel
    ensures GetInherited(arena, d, key, default, fuel) == Some(default)
    decreases k
  {
    assert Ancestor(arena, d, 0) == Some(d);
    if k > 0 {
      var p := ParentOf(arena, d).value;
      forall j | 0 <= j <= k - 1 && Ancestor(arena, p, j).Some?
        ensures key !in Ancestor(arena, p, j).value
      {
        assert Ancestor(arena, d, j + 1) == Ancestor(arena, p, j);
      }
      InheritedDefault(arena, p, key, default, k - 1, fuel - 1);
    }
  }

  /** More fuel never changes an answer already reached. */
  lemma {:induction false} InheritedFuelMonotone(arena: Arena, d: map<string, Obj>, key: string, default: Obj, fuel: nat, more: nat)
    requires GetInherited(arena, d, key, default, fuel).Some?
    requires fuel <= more
    ensures GetInherited(arena, d, key, default, more) == GetInherited(arena, d, key, default, fuel)
    decreases fuel
  {
    if key !in d && ParentOf(arena, d).Some? {
      InheritedFuelMonotone(arena, ParentOf(arena, d).value, key, default, fuel - 1, more - 1);
    }
  }

  // ---------------------------------------------------------------------
  // clone
  // ---------------------------------------------------------------------

  /** `o.clone(pdf_dest, force_duplicate, ignore_fields)` for arrays and
      dictionaries: an array clones every item; a dictionary keeps the keys
      not in `ignore_fields`, each value cloned with the same list.  A
      stream has no clone of its own here, so it goes through the
      dictionary's and comes out as a plain dictionary of its header.  The
      clone of any other object is that object. */
  function Clone(o: Obj, ignore: set<string>): (r: Obj)
    ensures o.Array? ==> r.Array? && |r.items| == |o.items|
    ensures IsDictLike(o) ==> r.Dict? && r.entries.Keys == EntriesOf(o).Keys - ignore
    ensures !o.Array? && !IsDictLike(o) ==> r == o
    decreases o
  {
    match o
    case Array(items) => Array(seq(|items|, i requires 0 <= i < |items| => Clone(items[i], ignore)))
    case Dict(e) => Dict(map k | k in e && k !in ignore :: Clone(e[k], ignore))
    case Stream(h, _) => Dict(map k | k in h && k !in ignore :: Clone(h[k], ignore))
    case _ => o
  }

  /** An object with no stream anywhere inside it. */
  predicate StreamFree(o: Obj)
    decreases o
  {
    match o
    case Stream(_, _) => false
    case Array(items) => forall i :: 0 <= i < |items| ==> StreamFree(items[i])
    case Dict(e) => forall k :: k in e ==> StreamFree(e[k])
    case _ => true
  }

  /** A clone holds no stream. */
  lemma {:induction false} CloneStreamFree(o: Obj, ignore: set<string>)
    ensures StreamFree(Clone(o, ignore))
    decreases o
  {
    match o
    case Array(items) =>
      forall i | 0 <= i < |items| ensures StreamFree(Clone(o, ignore).items[i]) {
        CloneStreamFree(items[i], ignore);
      }
    case Dict(e) =>
      forall k | k in Clone(o, ignore).entries ensures StreamFree(Clone(o, ignore).entries[k]) {
        CloneStreamFree(e[k], ignore);
      }
    case Stream(h, _) =>
      forall k | k in Clone(o, ignore).entries ensures StreamFree(Clone(o, ignore).entries[k]) {
        CloneStreamFree(h[k], ignore);
      }
    case _ =>
  }

  /** With nothing to ignore, cloning a stream-free object gives it back. */
  lemma {:induction false} CloneKeepsAll(o: Obj)
    requires StreamFree(o)
    ensures Clone(o, {}) == o
    decreases o
  {
    match o
    case Array(items) =>
      forall i | 0 <= i < |items| ensures Clone(items[i], {}) == items[i] {
        CloneKeepsAll(items[i]);
      }
      assert Clone(o, {}).items == items;
    case Dict(e) =>
      forall k | k in e ensures Clone(e[k], {}) == e[k] {
        CloneKeepsAll(e[k]);
      }
      assert Clone(o, {}).entries == e;
    case _ =>
  }

  /** Cloning a clone with the same ignore list changes nothing more. */
  lemma {:induction false} CloneIdempotent(o: Obj, ignore: set<string>)
    ensures Clone(Clone(o, ignore), ignore) == Clone(o, ignore)
    decreases o
  {
    match o
    case Array(items) =>
      forall i | 0 <= i < |items| ensures Clone(Clone(items[i], ignore), ignore) == Clone(items[i], ignore) {
        CloneIdempotent(items[i], ignore);
      }
      assert Clone(Clone(o, ignore), ignore).items == Clone(o, ignore).items;
    case Dict(e) =>
      forall k | k in e && k !in ignore ensures Clone(Clone(e[k], ignore), ignore) == Clone(e[k], ignore) {
        CloneIdempotent(e[k], ignore);
      }
      assert Clone(Clone(o, ignore), ignore).entries == Clone(o, ignore).entries;
    case Stream(h, _) =>
      forall k | k in h && k !in ignore ensures Clone(Clone(h[k], ignore), ignore) == Clone(h[k], ignore) {
        CloneIdempotent(h[k], ignore);
      }
      assert Clone(Clone(o, ignore), ignore).entries == Clone(o, ignore).entries;
    case _ =>
  }

  // ---------------------------------------------------------------------
  // ContentStream over an array of streams
  // ---------------------------------------------------------------------

  /** The bytes of each part: `s.get_object().get_data()`, in order; the
      first part whose `get_data` fails (`getData` yields the exception, for
      instance AttributeError for an object that is not a stream) stops the
      whole construction. */
  function PartsData(arena: Arena, items: seq<Obj>, getData: Obj -> Result<seq<byte>>): (r: Result<seq<seq<byte>>>)
    ensures r.Ok? ==> |r.value| == |items|
    ensures r.Ok? ==> forall i :: 0 <= i < |items| ==> getData(GetObject(arena, items[i])) == Ok(r.value[i])
  {
    if items == [] then Ok([])
    else
      var first :- getData(GetObject(arena, items[0]));
      var rest :- PartsData(arena, items[1..], getData);
      Ok([first] + rest)
  }

  /** The concatenation loop as written: `data[-1]` is an int and never
      equals `b"\n"`, so a newline follows every part. */
  function JoinAsWritten(parts: seq<seq<byte>>): (r: seq<byte>)
  {
    if parts == [] then [] else parts[0] + [10] + JoinAsWritten(parts[1..])
  }

  /** The concatenation loop as evidently intended: a newline is appended
      after a part only when the data so far is empty or does not already
      end with one. */
  function JoinFrom(acc: seq<byte>, parts: seq<seq<byte>>): (r: seq<byte>)
    decreases |parts|
  {
    if parts == [] then acc
    else
      var data := acc + parts[0];
      var data' := if |data| == 0 || data[|data| - 1] != 10 then data + [10] else data;
      JoinFrom(data', parts[1..])
  }

  /** A part together with the newline the corrected loop puts after it. */
  function Terminated(p: seq<byte>): seq<byte>
  {
    if |p| > 0 && p[|p| - 1] == 10 then p else p + [10]
  }

  function Concat(parts: seq<seq<byte>>): seq<byte>
  {
    if parts == [] then [] else parts[0] + Concat(parts[1..])
  }

  /** Every part, each followed by a newline unless it ends with one. */
  function ConcatTerminated(parts: seq<seq<byte>>): seq<byte>
  {
    if parts == [] then [] else Terminated(parts[0]) + ConcatTerminated(parts[1..])
  }

  /** As written, the data is every part followed by one newline: its
      length is the parts' lengths plus one per part. */
  lemma {:induction false} JoinAsWrittenLength(parts: seq<seq<byte>>)
    ensures |JoinAsWritten(parts)| == |Concat(parts)| + |parts|
  {
    if parts != [] {
      JoinAsWrittenLength(parts[1..]);
    }
  }

  /** One round of the corrected loop on a non-empty part. */
  lemma JoinFromStep(acc: seq<byte>, parts: seq<seq<byte>>)
    requires parts != [] && |parts[0]| > 0
    ensures JoinFrom(acc, parts) == JoinFrom(acc + Terminated(parts[0]), parts[1..])
  {
    var data := acc + parts[0];
    assert data[|data| - 1] == parts[0][|parts[0]| - 1];
    assert data + [10] == acc + (parts[0] + [10]);
  }

  /** The corrected loop after some data: that data, then the rest. */
  lemma {:induction false} JoinFromTerminated(acc: seq<byte>, parts: seq<seq<byte>>)
    requires forall i :: 0 <= i < |parts| ==> |parts[i]| > 0
    ensures JoinFrom(acc, parts) == acc + ConcatTerminated(parts)
    decreases |parts|
  {
    if parts != [] {
      JoinFromStep(acc, parts);
      JoinFromTerminated(acc + Terminated(parts[0]), parts[1..]);
      assert acc + Terminated(parts[0]) + ConcatTerminated(parts[1..]) == acc + ConcatTerminated(parts);
    }
  }

  /** Corrected, each non-empty part is followed by a newline only when it
      does not already end with one. */
  lemma JoinCorrectedParts(parts: seq<seq<byte>>)
    requires forall i :: 0 <= i < |parts| ==> |parts[i]| > 0
    ensures JoinFrom([], parts) == ConcatTerminated(parts)
  {
    JoinFromTerminated([], parts);
  }

  /** A single part that already ends with a newline gets a second one as
      written, and none when corrected. */
  lemma JoinCounterexample()
    ensures JoinAsWritten([[113, 10]]) == [113, 10, 10]
    ensures JoinFrom([], [[113, 10]]) == [113, 10]
  {
    assert JoinFrom([], [[113, 10]]) == JoinFrom([113, 10], []);
  }

  /** `ContentStream(stream, pdf)`'s data: empty for None, the joined parts
      of an array, and otherwise the resolved object's own `get_data()`.
      `corrected` selects the evidently intended join. */
  function ContentData(arena: Arena, stream: Option<Obj>, getData: Obj -> Result<seq<byte>>, corrected: bool): (r: Result<seq<byte>>)
    ensures stream.None? ==> r == Ok([])
    ensures stream.Some? && !GetObject(arena, stream.value).Array? ==> r == getData(GetObject(arena, stream.value))
    ensures stream.Some? && GetObject(arena, stream.value).Array? ==>
              (r.Ok? <==> PartsData(arena, GetObject(arena, stream.value).items, getData).Ok?)
  {
    match stream
    case None => Ok([])
    case Some(s) =>
      var o := GetObject(arena, s);
      if o.Array? then
        var parts :- PartsData(arena, o.items, getData);
        Ok(if corrected then JoinFrom([], parts) else JoinAsWritten(parts))
      else getData(o)
  }

  // ---------------------------------------------------------------------
  // Destination
  // ---------------------------------------------------------------------

  /** A fit: its type name (a `NameObject`) and its argument objects. */
  datatype Fit = Fit(typ: string, args: seq<Obj>)

  /** `args` padded with the number 0 to three entries. */
  function PadXYZ(args: seq<Obj>): (r: seq<Obj>)
    ensures |r| == if |args| < 3 then 3 else |args|
    ensures forall i :: 0 <= i < |r| ==> r[i] == (if i < |args| then args[i] else Int(0))
    decreases 3 - |args|
  {
    if |args| < 3 then PadXYZ(args + [Int(0)]) else args
  }

  /** `Destination(title, page, fit)`: /Title, /Page and /Type, then the
      arguments under the names the fit type gives them.  Unpacking the
      wrong number of arguments for /XYZ (more than three) or /FitR (other
      than four) raises ValueError; for /FitH, /FitBH, /FitV and /FitBV it
      is caught and the entry becomes null; an unknown type raises
      PdfReadError, but only when it comes with arguments. */
  function Destination(title: string, page: Obj, fit: Fit): (r: Result<map<string, Obj>>)
    ensures r.Ok? ==> "/Title" in r.value && r.value["/Title"] == Text(title)
    ensures r.Ok? ==> "/Page" in r.value && r.value["/Page"] == page
    ensures r.Ok? ==> "/Type" in r.value && r.value["/Type"] == Name(fit.typ)
    ensures r.Err? <==> (fit.typ == "/XYZ" && |fit.args| > 3)
                        || (fit.typ != "/XYZ" && |fit.args| > 0 && fit.typ == "/FitR" && |fit.args| != 4)
                        || (fit.typ !in ["/XYZ", "/FitR", "/FitH", "/FitBH", "/FitV", "/FitBV", "/Fit", "/FitB"] && |fit.args| > 0)
    ensures r.Err? ==> r.exc == (if fit.typ in ["/XYZ", "/FitR"] then ValueError else PdfReadError)
  {
    var base := map["/Title" := Text(title), "/Page" := page, "/Type" := Name(fit.typ)];
    var args := fit.args;
    if fit.typ == "/XYZ" then
      var padded := PadXYZ(args);
      if |padded| != 3 then Err(ValueError)
      else Ok(base["/Left" := padded[0]]["/Top" := padded[1]]["/Zoom" := padded[2]])
    else if |args| == 0 then Ok(base)
    else if fit.typ == "/FitR" then
      if |args| != 4 then Err(ValueError)
      else Ok(base["/Left" := args[0]]["/Bottom" := args[1]]["/Right" := args[2]]["/Top" := args[3]])
    else if fit.typ in ["/FitH", "/FitBH"] then
      Ok(base["/Top" := if |args| == 1 then args[0] else Null])
    else if fit.typ in ["/FitV", "/FitBV"] then
      Ok(base["/Left" := if |args| == 1 then args[0] else Null])
    else if fit.typ in ["/Fit", "/FitB"] then Ok(base)
    else Err(PdfReadError)
  }

  /** An /XYZ destination always carries /Left, /Top and /Zoom, the
      missing arguments taken as 0. */
  lemma DestinationXYZ(title: string, page: Obj, fit: Fit)
    requires fit.typ == "/XYZ"
    ensures var r := Destination(title, page, fit);
            r.Ok? ==>
              (r.value.Keys == {"/Title", "/Page", "/Type", "/Left", "/Top", "/Zoom"}
               && r.value["/Left"] == (if |fit.args| > 0 then fit.args[0] else Int(0))
               && r.value["/Top"] == (if |fit.args| > 1 then fit.args[1] else Int(0))
               && r.value["/Zoom"] == (if |fit.args| > 2 then fit.args[2] else Int(0)))
  {
  }

  /** A /FitR destination with its four arguments carries the four sides
      in the order left, bottom, right, top. */
  lemma DestinationFitR(title: string, page: Obj, fit: Fit)
    requires fit.typ == "/FitR" && |fit.args| == 4
    ensures var r := Destination(title, page, fit);
            r.Ok? && r.value.Keys == {"/Title", "/Page", "/Type", "/Left", "/Bottom", "/Right", "/Top"}
            && r.value["/Left"] == fit.args[0] && r.value["/Bottom"] == fit.args[1]
            && r.value["/Right"] == fit.args[2] && r.value["/Top"] == fit.args[3]
  {
  }

  /** The one-side fits with arguments carry their single side, null when
      the argument count is not one; any fit other than /XYZ without
      arguments carries nothing beyond title, page and type. */
  lemma DestinationSide(title: string, page: Obj, fit: Fit)
    ensures var r := Destination(title, page, fit);
            fit.typ != "/XYZ" && |fit.args| == 0 ==> r.Ok? && r.value.Keys == {"/Title", "/Page", "/Type"}
    ensures var r := Destination(title, page, fit);
            fit.typ in ["/FitH", "/FitBH"] && |fit.args| > 0 ==>
              (r.Ok? && r.value.Keys == {"/Title", "/Page", "/Type", "/Top"}
               && r.value["/Top"] == (if |fit.args| == 1 then fit.args[0] else Null))
    ensures var r := Destination(title, page, fit);
            fit.typ in ["/FitV", "/FitBV"] && |fit.args| > 0 ==>
              (r.Ok? && r.value.Keys == {"/Title", "/Page", "/Type", "/Left"}
               && r.value["/Left"] == (if |fit.args| == 1 then fit.args[0] else Null))
  {
  }

  /** What the caller's `fit` holds once `Destination(title, page, fit)`
      has run: the constructor binds the caller's own `fit_args` list and,
      for /XYZ, appends the missing zeros to it before unpacking, so the
      caller sees the padding.  Other fit types leave the list alone. */
  function FitAfterDestination(fit: Fit): (r: Fit)
    ensures r.typ == fit.typ
    ensures fit.typ != "/XYZ" ==> r.args == fit.args
    ensures fit.typ == "/XYZ" ==> |r.args| == Max(3, |fit.args|) && r.args[..|fit.args|] == fit.args
    ensures fit.typ == "/XYZ" ==> forall i :: |fit.args| <= i < |r.args| ==> r.args[i] == Int(0)
  {
    if fit.typ == "/XYZ" then Fit(fit.typ, PadXYZ(fit.args)) else fit
  }

  /** An /XYZ destination's /Left, /Top and /Zoom are the three entries
      the caller's fit holds afterwards. */
  lemma DestinationReadsPaddedFit(title: string, page: Obj, fit: Fit)
    requires fit.typ == "/XYZ" && Destination(title, page, fit).Ok?
    ensures var d := Destination(title, page, fit).value;
            var a := FitAfterDestination(fit).args;
            |a| == 3 && "/Left" in d && "/Top" in d && "/Zoom" in d
            && d["/Left"] == a[0] && d["/Top"] == a[1] && d["/Zoom"] == a[2]
  {
  }

  /** `Destination.page`: the object number of /Page when it is an
      indirect reference, None otherwise. */
  function DestinationPage(d: map<string, Obj>): (r: Option<int>)
  {
    if "/Page" in d && d["/Page"].Indirect? then Some(d["/Page"].ref.idnum) else None
  }

  /** A destination built on a page reference reports that page's object
      number; built on anything else (a page number, null, a page
      dictionary) it reports None. */
  lemma DestinationPageRoundTrip(title: string, page: Obj, fit: Fit)
    requires Destination(title, page, fit).Ok?
    ensures page.Indirect? ==> DestinationPage(Destination(title, page, fit).value) == Some(page.ref.idnum)
    ensures !page.Indirect? ==> DestinationPage(Destination(title, page, fit).value) == None
  {
  }
}
