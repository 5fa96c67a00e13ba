/** `FieldDictionaryAttributes` of `pypdf/constants.py`: the keys common to
    all field dictionaries (table 220 of ISO 32000-2) and the two class
    methods that list them. */
module FieldAttributes {

  /** What a class attribute holds, as far as `isinstance(…, str)` cares. */
  datatype ClassAttr = Str(value: string) | NestedClass | Method | Descriptor

  /** The implicit entries a class body starts with; the docstring is
      abbreviated, only its being a `str` under a `_` name matters. */
  const FieldHead: seq<(string, ClassAttr)> := [
    ("__module__", Str("pypdf.constants")),
    ("__doc__", Str("Entries common to all field dictionaries"))
  ]

  /** The field entry keys, `FT = '/FT'` to `Opt = '/Opt'`. */
  const FieldEntries: seq<(string, ClassAttr)> := [
    ("FT", Str("/FT")), ("Parent", Str("/Parent")), ("Kids", Str("/Kids")),
    ("T", Str("/T")), ("TU", Str("/TU")), ("TM", Str("/TM")), ("Ff", Str("/Ff")),
    ("V", Str("/V")), ("DV", Str("/DV")), ("AA", Str("/AA")), ("Opt", Str("/Opt"))
  ]

  /** The nested flag class, the two class methods and the implicit
      instance-dictionary slots. */
  const FieldTail: seq<(string, ClassAttr)> := [
    ("FfBits", NestedClass), ("attributes", Method), ("attributes_dict", Method),
    ("__dict__", Descriptor), ("__weakref__", Descriptor)
  ]

  /** `FieldDictionaryAttributes.__dict__`, in definition order. */
  function FieldClassDict(): seq<(string, ClassAttr)>
  {
    FieldHead + FieldEntries + FieldTail
  }

  /** `not attr.startswith('_') and isinstance(getattr(cls, attr), str)`. */
  predicate IsPublicStr(entry: (string, ClassAttr))
  {
    !(|entry.0| > 0 && entry.0[0] == '_') && entry.1.Str?
  }

  /** The entries `attributes()` keeps, in order. */
  function PublicStrs(ms: seq<(string, ClassAttr)>): (r: seq<(string, ClassAttr)>)
    ensures |r| <= |ms|
    ensures forall k :: 0 <= k < |r| ==> IsPublicStr(r[k])
  {
    if ms == [] then []
    else if IsPublicStr(ms[0]) then [ms[0]] + PublicStrs(ms[1..])
    else PublicStrs(ms[1..])
  }

  lemma {:induction false} PublicStrsAppend(a: seq<(string, ClassAttr)>, b: seq<(string, ClassAttr)>)
    ensures PublicStrs(a + b) == PublicStrs(a) + PublicStrs(b)
  {
    if a == [] {
      assert a + b == b;
    } else {
      assert (a + b)[0] == a[0] && (a + b)[1..] == a[1..] + b;
      PublicStrsAppend(a[1..], b);
    }
  }

  lemma {:induction false} PublicStrsAll(ms: seq<(string, ClassAttr)>)
    requires forall k :: 0 <= k < |ms| ==> IsPublicStr(ms[k])
    ensures PublicStrs(ms) == ms
  {
    if ms != [] {
      PublicStrsAll(ms[1..]);
    }
  }

  lemma {:induction false} PublicStrsNone(ms: seq<(string, ClassAttr)>)
    requires forall k :: 0 <= k < |ms| ==> !IsPublicStr(ms[k])
    ensures PublicStrs(ms) == []
  {
    if ms != [] {
      PublicStrsNone(ms[1..]);
    }
  }

  /** The class dictionary filtered as `attributes()` filters it is exactly
      the eleven field entries. */
  lemma PublicStrsOfClass()
    ensures PublicStrs(FieldClassDict()) == FieldEntries
  {
    HeadDropped();
    EntriesKept();
    TailDropped();
    PublicStrsAppend(FieldHead, FieldEntries);
    PublicStrsAppend(FieldHead + FieldEntries, FieldTail);
  }

  lemma HeadDropped()
    ensures PublicStrs(FieldHead) == []
  {
    assert !IsPublicStr(FieldHead[0]) && !IsPublicStr(FieldHead[1]);
    PublicStrsNone(FieldHead);
  }

  lemma EntriesKept()
    ensures PublicStrs(FieldEntries) == FieldEntries
  {
    forall k | 0 <= k < |FieldEntries|
      ensures IsPublicStr(FieldEntries[k])
    {
      assert FieldEntries[k].0[0] != '_';
    }
    PublicStrsAll(FieldEntries);
  }

  lemma TailDropped()
    ensures PublicStrs(FieldTail) == []
  {
    assert !IsPublicStr(FieldTail[0]) && !IsPublicStr(FieldTail[1]) && !IsPublicStr(FieldTail[2]);
    assert !IsPublicStr(FieldTail[3]) && !IsPublicStr(FieldTail[4]);
    PublicStrsNone(FieldTail);
  }

  /** `s.lstrip(c)`: every leading `c` removed. */
  function LStrip(s: string, c: char): (r: string)
    ensures |r| <= |s| && r == s[|s| - |r|..]
    ensures r == [] || r[0] != c
    ensures forall i :: 0 <= i < |s| - |r| ==> s[i] == c
  {
    if s != [] && s[0] == c then LStrip(s[1..], c) else s
  }

  /** `attributes()` as written: the NAMES of the public `str` class
      attributes, `'FT'` rather than `'/FT'`. */
  function AttributesAsWritten(): (r: seq<string>)
  {
    var kept := PublicStrs(FieldClassDict());
    seq(|kept|, k requires 0 <= k < |kept| => kept[k].0)
  }

  /** `attributes_dict()` as written, over `attributes()` as written. */
  function AttributesDictAsWritten(): (r: seq<(string, string)>)
  {
    var names := AttributesAsWritten();
    seq(|names|, k requires 0 <= k < |names| => (names[k], LStrip(names[k], '/')))
  }

  /** Each field entry's value is its own name behind a `/`. */
  lemma EntriesSlashed()
    ensures forall k :: 0 <= k < |FieldEntries| ==>
      FieldEntries[k].1 == Str("/" + FieldEntries[k].0) && FieldEntries[k].0 != [] && FieldEntries[k].0[0] != '/'
  {
  }

  /** As written, `attributes()` lists the Python names of the field
      entries, and the `lstrip` of `attributes_dict()` has nothing to strip:
      every name maps to itself. */
  lemma AttributesAsWrittenAreNames()
    ensures |AttributesAsWritten()| == |FieldEntries|
    ensures forall k :: 0 <= k < |FieldEntries| ==> AttributesAsWritten()[k] == FieldEntries[k].0
    ensures forall k :: 0 <= k < |FieldEntries| ==> AttributesDictAsWritten()[k] == (FieldEntries[k].0, FieldEntries[k].0)
  {
    PublicStrsOfClass();
    EntriesSlashed();
  }

  /** `attributes()` as documented: the attribute constants, the values of
      the public `str` class attributes. */
  function Attributes(): (r: seq<string>)
  {
    var kept := PublicStrs(FieldClassDict());
    seq(|kept|, k requires 0 <= k < |kept| => kept[k].1.value)
  }

  /** `attributes_dict()` over the documented `attributes()`: each entry key
      with its human-readable name. */
  function AttributesDict(): (r: seq<(string, string)>)
  {
    var keys := Attributes();
    seq(|keys|, k requires 0 <= k < |keys| => (keys[k], LStrip(keys[k], '/')))
  }

  /** `lstrip('/')` undoes one `/` in front of a name that does not start
      with one. */
  lemma LStripSlash(v: string)
    requires v != [] && v[0] != '/'
    ensures LStrip("/" + v, '/') == v
  {
    assert ("/" + v)[1..] == v;
  }

  /** With the constants listed, `attributes()` gives the field entry keys
      in definition order, and `attributes_dict()` maps each to its name
      without the `/`. */
  lemma AttributesDictStripsSlash()
    ensures |Attributes()| == |FieldEntries|
    ensures forall k :: 0 <= k < |FieldEntries| ==> Attributes()[k] == "/" + FieldEntries[k].0
    ensures forall k :: 0 <= k < |FieldEntries| ==> AttributesDict()[k] == ("/" + FieldEntries[k].0, FieldEntries[k].0)
  {
    PublicStrsOfClass();
    EntriesSlashed();
    forall k | 0 <= k < |FieldEntries|
      ensures LStrip("/" + FieldEntries[k].0, '/') == FieldEntries[k].0
    {
      LStripSlash(FieldEntries[k].0);
    }
  }

  /** The two readings differ from the first entry on: as written the list
      starts with `FT`, as documented with the key `/FT`. */
  lemma AttributesDiffer()
    ensures AttributesAsWritten()[0] == "FT" && Attributes()[0] == "/FT"
    ensures AttributesDictAsWritten()[0] == ("FT", "FT") && AttributesDict()[0] == ("/FT", "FT")
  {
    AttributesAsWrittenAreNames();
    AttributesDictStripsSlash();
  }
}
