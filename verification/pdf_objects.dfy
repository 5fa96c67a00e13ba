/** The PDF object model as the library sees it: a tagged union of values,
    with indirect references resolved through an arena of numbered objects
    (the reader's object table).  Dictionary keys are name strings. */
module PdfObjects {
  import opened PyBase

  /** An indirect reference `idnum generation R`. */
  datatype Ref = Ref(idnum: int, generation: int)

  datatype Obj =
    | Null
    | Bool(b: bool)
    | Int(i: int)
    | Float(r: real)
    | Name(name: string)
    | Text(text: string)
    | Bytes(bytes: seq<byte>)
    | Array(items: seq<Obj>)
    | Dict(entries: map<string, Obj>)
    | Stream(header: map<string, Obj>, data: seq<byte>)
    | Indirect(ref: Ref)

  /** The document's object table: where indirect references point. */
  type Arena = map<Ref, Obj>

  /** `obj.get_object()`: an indirect reference is looked up in the arena
      (a dangling one reads as the null object); anything else is itself. */
  function GetObject(arena: Arena, o: Obj): (r: Obj)
    ensures !o.Indirect? ==> r == o
    ensures o.Indirect? && o.ref in arena ==> r == arena[o.ref]
  {
    match o
    case Indirect(ref) => if ref in arena then arena[ref] else Null
    case _ => o
  }

  /** `NameObject` and `TextStringObject` are both `str` subclasses, so both
      compare equal to a Python string literal. */
  predicate IsStr(o: Obj) { o.Name? || o.Text? }

  function StrOf(o: Obj): string
    requires IsStr(o)
  {
    if o.Name? then o.name else o.text
  }

  /** `o == "<literal>"` in Python. */
  predicate StrEq(o: Obj, s: string)
  {
    IsStr(o) && StrOf(o) == s
  }

  /** The entries of a dictionary or of a stream's dictionary. */
  predicate IsDictLike(o: Obj) { o.Dict? || o.Stream? }

  function EntriesOf(o: Obj): map<string, Obj>
    requires IsDictLike(o)
  {
    if o.Dict? then o.entries else o.header
  }

  /** `NumberObject` and `FloatObject` subclass Python's `int` and `float`,
      so they, and only they, order against a Python integer. */
  predicate IsNumber(o: Obj) { o.Int? || o.Float? }

  function NumberValue(o: Obj): real
    requires IsNumber(o)
  {
    if o.Int? then o.i as real else o.r
  }

  /** `len(o)`, for the objects that have a length: arrays, dictionaries
      (a stream's being its header's), strings and byte strings. */
  function PyLen(o: Obj): (r: Option<nat>)
    ensures r.Some? <==> (o.Array? || IsDictLike(o) || IsStr(o) || o.Bytes?)
    ensures o.Array? ==> r == Some(|o.items|)
    ensures IsDictLike(o) ==> r == Some(|EntriesOf(o)|)
    ensures IsStr(o) ==> r == Some(|StrOf(o)|)
    ensures o.Bytes? ==> r == Some(|o.bytes|)
  {
    match o
    case Array(items) => Some(|items|)
    case Dict(entries) => Some(|entries|)
    case Stream(header, _) => Some(|header|)
    case Name(name) => Some(|name|)
    case Text(text) => Some(|text|)
    case Bytes(bytes) => Some(|bytes|)
    case _ => None
  }

  /** `o[k]` with an integer `k` below `len(o)`: an array's item as stored;
      a dictionary's keys are names, so an integer is KeyError; a string
      gives a one-character string and a byte string the byte's value. */
  function PyIndex(o: Obj, k: nat): (r: Result<Obj>)
    requires PyLen(o).Some? && k < PyLen(o).value
    ensures r.Err? <==> IsDictLike(o)
    ensures r.Err? ==> r.exc == KeyError
    ensures o.Array? ==> r == Ok(o.items[k])
    ensures IsStr(o) ==> r == Ok(Text([StrOf(o)[k]]))
    ensures o.Bytes? ==> r == Ok(Int(o.bytes[k]))
  {
    match o
    case Array(items) => Ok(items[k])
    case Name(name) => Ok(Text([name[k]]))
    case Text(text) => Ok(Text([text[k]]))
    case Bytes(bytes) => Ok(Int(bytes[k]))
    case _ => Err(KeyError)
  }

  /** `d.get(key, default)`: the raw stored value, not resolved. */
  function DictGet(d: map<string, Obj>, key: string, default: Obj): (r: Obj)
    ensures key in d ==> r == d[key]
    ensures key !in d ==> r == default
  {
    if key in d then d[key] else default
  }
}
