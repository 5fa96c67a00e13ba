/** The user-access permission flags of `pypdf/constants.py` (table 22 of
    ISO 32000-2) with their conversion to and from a name-to-bool
    dictionary. */
module Permissions {
  import opened PyBase
  import opened PyText

  // ---------------------------------------------------------------------
  // UserAccessPermissions
  // ---------------------------------------------------------------------

  /** A flag value, as the set of the positions of its one bits: `&` is
      intersection and `|` is union.  Every member is a single bit, `2 ** n`,
      and is listed with its position `n`. */
  type Flags = set<nat>

  /** The flag members up to `PRINT_TO_REPRESENTATION`, in declaration
      order, each with its bit position: `R1 = 1` is bit 0, `PRINT = 4` is
      bit 2, `PRINT_TO_REPRESENTATION = 2048` is bit 11. */
  const LowMembers: seq<(string, nat)> := [
    ("R1", 0), ("R2", 1), ("PRINT", 2), ("MODIFY", 3), ("EXTRACT", 4),
    ("ADD_OR_MODIFY", 5), ("R7", 6), ("R8", 7), ("FILL_FORM_FIELDS", 8),
    ("EXTRACT_TEXT_AND_GRAPHICS", 9), ("ASSEMBLE_DOC", 10),
    ("PRINT_TO_REPRESENTATION", 11)
  ]

  /** `R13 = 2 ** 12` up to `R32 = 2 ** 31`. */
  function HighMembers(): (r: seq<(string, nat)>)
    ensures |r| == 20
  {
    seq(20, k requires 0 <= k < 20 => ("R" + NatToString(13 + k), 12 + k))
  }

  /** `UserAccessPermissions.__members__`, in declaration order. */
  function Members(): seq<(string, nat)>
  {
    LowMembers + HighMembers()
  }

  /** The eight permissions a document can grant, with their bits. */
  const Grantable: seq<(string, nat)> := [
    ("PRINT", 2), ("MODIFY", 3), ("EXTRACT", 4), ("ADD_OR_MODIFY", 5),
    ("FILL_FORM_FIELDS", 8), ("EXTRACT_TEXT_AND_GRAPHICS", 9),
    ("ASSEMBLE_DOC", 10), ("PRINT_TO_REPRESENTATION", 11)
  ]

  /** The bits of the grantable permissions, `0xF3C`. */
  function GrantableMask(): Flags
  {
    set k | 0 <= k < |Grantable| :: Grantable[k].1
  }

  /** `_is_reserved(name)`: `name.startswith('R') and name[1:].isdigit()`,
      where `isdigit` needs at least one character, all decimal digits. */
  predicate IsReserved(name: string)
  {
    |name| >= 2 && name[0] == 'R' && forall i :: 1 <= i < |name| ==> IsDigit(name[i])
  }

  /** `_is_active(name)`: the reserved bits that default to 1. */
  predicate IsActive(name: string)
  {
    name in {"R1", "R2", "R7", "R8", "R13", "R14", "R15", "R16", "R17", "R18",
             "R19", "R20", "R21", "R22", "R23", "R24", "R25", "R26", "R27",
             "R28", "R29", "R30", "R31", "R32"}
  }

  /** The members whose names are not reserved, in order. */
  function Unreserved(ms: seq<(string, nat)>): (r: seq<(string, nat)>)
    ensures |r| <= |ms|
    ensures forall k :: 0 <= k < |r| ==> r[k] in ms && !IsReserved(r[k].0)
  {
    if ms == [] then []
    else if IsReserved(ms[0].0) then Unreserved(ms[1..])
    else [ms[0]] + Unreserved(ms[1..])
  }

  lemma {:induction false} UnreservedAppend(a: seq<(string, nat)>, b: seq<(string, nat)>)
    ensures Unreserved(a + b) == Unreserved(a) + Unreserved(b)
  {
    if a == [] {
      assert a + b == b;
    } else {
      assert (a + b)[0] == a[0] && (a + b)[1..] == a[1..] + b;
      UnreservedAppend(a[1..], b);
    }
  }

  lemma {:induction false} UnreservedNone(ms: seq<(string, nat)>)
    requires forall k :: 0 <= k < |ms| ==> IsReserved(ms[k].0)
    ensures Unreserved(ms) == []
  {
    if ms != [] {
      UnreservedNone(ms[1..]);
    }
  }

  /** Every generated member from R13 on is reserved. */
  lemma HighMembersReserved()
    ensures forall k :: 0 <= k < 20 ==> IsReserved(HighMembers()[k].0)
    ensures forall k :: 0 <= k < 20 ==> HighMembers()[k].0[0] == 'R'
  {
    forall k | 0 <= k < 20
      ensures IsReserved(HighMembers()[k].0)
    {
      var digits := NatToString(13 + k);
      var name := "R" + digits;
      assert forall i :: 1 <= i < |name| ==> name[i] == digits[i - 1];
    }
  }

  /** The unreserved members are exactly the grantable permissions, in
      declaration order. */
  lemma UnreservedMembers()
    ensures Unreserved(Members()) == Grantable
  {
    HighMembersReserved();
    UnreservedNone(HighMembers());
    UnreservedAppend(LowMembers, HighMembers());
    UnreservedLow();
  }

  lemma UnreservedLow()
    ensures Unreserved(LowMembers) == Grantable
  {
    var b1: seq<(string, nat)> := [("R1", 0), ("R2", 1)];
    var b2: seq<(string, nat)> := [("PRINT", 2), ("MODIFY", 3), ("EXTRACT", 4), ("ADD_OR_MODIFY", 5)];
    var b3: seq<(string, nat)> := [("R7", 6), ("R8", 7)];
    var b4: seq<(string, nat)> := [("FILL_FORM_FIELDS", 8), ("EXTRACT_TEXT_AND_GRAPHICS", 9),
      ("ASSEMBLE_DOC", 10), ("PRINT_TO_REPRESENTATION", 11)];
    assert LowMembers == b1 + (b2 + (b3 + b4));
    assert Grantable == b2 + b4;
    UnreservedNone(b1);
    UnreservedNone(b3);
    UnreservedKeep(b2);
    UnreservedHighGrants();
    UnreservedAppend(b3, b4);
    UnreservedAppend(b2, b3 + b4);
    UnreservedAppend(b1, b2 + (b3 + b4));
  }

  /** The second run of grantable permissions passes the filter whole. */
  lemma UnreservedHighGrants()
    ensures Unreserved([("FILL_FORM_FIELDS", 8), ("EXTRACT_TEXT_AND_GRAPHICS", 9),
      ("ASSEMBLE_DOC", 10), ("PRINT_TO_REPRESENTATION", 11)])
      == [("FILL_FORM_FIELDS", 8), ("EXTRACT_TEXT_AND_GRAPHICS", 9),
      ("ASSEMBLE_DOC", 10), ("PRINT_TO_REPRESENTATION", 11)]
  {
    var b4: seq<(string, nat)> := [("FILL_FORM_FIELDS", 8), ("EXTRACT_TEXT_AND_GRAPHICS", 9),
      ("ASSEMBLE_DOC", 10), ("PRINT_TO_REPRESENTATION", 11)];
    assert !IsReserved(b4[0].0) && !IsReserved(b4[1].0);
    assert !IsReserved(b4[2].0) && !IsReserved(b4[3].0);
    UnreservedKeep(b4);
  }

  lemma {:induction false} UnreservedKeep(ms: seq<(string, nat)>)
    requires forall k :: 0 <= k < |ms| ==> !IsReserved(ms[k].0)
    ensures Unreserved(ms) == ms
  {
    if ms != [] {
      UnreservedKeep(ms[1..]);
    }
  }
  /** Every active name is a reserved one. */
  lemma ActiveIsReserved(name: string)
    requires IsActive(name)
    ensures IsReserved(name)
  {
  }

  /** `bool(self & value)` for the member at bit position `bit`. */
  predicate IsSet(p: Flags, bit: nat)
  {
    bit in p
  }

  /** `to_dict()`: the unreserved members in declaration order, each mapped
      to whether its bit is set. */
  function ToDict(p: Flags): (r: seq<(string, bool)>)
    ensures |r| == |Grantable|
    ensures forall k :: 0 <= k < |r| ==> r[k] == (Grantable[k].0, IsSet(p, Grantable[k].1))
  {
    UnreservedMembers();
    var u := Unreserved(Members());
    seq(|u|, k requires 0 <= k < |u| => (u[k].0, IsSet(p, u[k].1)))
  }

  /** `cls[name]`: the bit of the first member with that name. */
  function Lookup(ms: seq<(string, nat)>, name: string): Option<nat>
  {
    if ms == [] then None
    else if ms[0].0 == name then Some(ms[0].1)
    else Lookup(ms[1..], name)
  }

  /** The lookup fails exactly when no member has the name. */
  lemma {:induction false} LookupNone(ms: seq<(string, nat)>, name: string)
    ensures Lookup(ms, name).None? <==> forall k :: 0 <= k < |ms| ==> ms[k].0 != name
  {
    if ms != [] {
      LookupNone(ms[1..], name);
      assert forall k :: 1 <= k < |ms| ==> ms[k] == ms[1..][k - 1];
    }
  }

  /** A name first held by entry `k` looks up that entry's bit. */
  lemma {:induction false} LookupFirst(ms: seq<(string, nat)>, k: nat)
    requires k < |ms| && forall j :: 0 <= j < k ==> ms[j].0 != ms[k].0
    ensures Lookup(ms, ms[k].0) == Some(ms[k].1)
  {
    if k > 0 {
      assert ms[1..][k - 1] == ms[k];
      LookupFirst(ms[1..], k - 1);
    }
  }

  lemma {:induction false} LookupAppend(a: seq<(string, nat)>, b: seq<(string, nat)>, name: string)
    requires Lookup(a, name).Some?
    ensures Lookup(a + b, name) == Lookup(a, name)
  {
    assert a != [];
    assert (a + b)[0] == a[0] && (a + b)[1..] == a[1..] + b;
    if a[0].0 != name {
      LookupAppend(a[1..], b, name);
    }
  }

  /** Each grantable name looks up its own bit. */
  lemma LookupGrantable(i: nat)
    requires i < |Grantable|
    ensures Lookup(Members(), Grantable[i].0) == Some(Grantable[i].1)
  {
    var k := [2, 3, 4, 5, 8, 9, 10, 11][i];
    assert LowMembers[k] == Grantable[i];
    assert forall j :: 0 <= j < k ==> LowMembers[j].0 != LowMembers[k].0;
    LookupFirst(LowMembers, k);
    LookupAppend(LowMembers, HighMembers(), Grantable[i].0);
  }

  /** A name that is not among the first twelve members and does not start
      with `R` is no member at all. */
  lemma LookupMissing(name: string)
    requires |name| > 0 && name[0] != 'R'
    requires forall k :: 0 <= k < |LowMembers| ==> LowMembers[k].0 != name
    ensures Lookup(Members(), name).None?
  {
    HighMembersReserved();
    var ms := Members();
    forall k | 0 <= k < |ms|
      ensures ms[k].0 != name
    {
      if k >= 12 {
        assert ms[k] == HighMembers()[k - 12];
      }
    }
    LookupNone(ms, name);
  }

  /** The loop of `from_dict` over the member table `ms`, from `flags` on:
      each name mapped to true ORs its member's bit in; a name mapped to
      false is skipped without being looked up, and a true name that is no
      member raises KeyError. */
  function FromDictFrom(ms: seq<(string, nat)>, d: seq<(string, bool)>, flags: Flags): (r: Result<Flags>)
    ensures r.Err? ==> r.exc == KeyError
    ensures r.Ok? ==> flags <= r.value
  {
    if d == [] then Ok(flags)
    else if !d[0].1 then FromDictFrom(ms, d[1..], flags)
    else
      match Lookup(ms, d[0].0)
      case None => Err(KeyError)
      case Some(v) => FromDictFrom(ms, d[1..], flags + {v})
  }

  /** The loop fails exactly when some name mapped to true is no member. */
  lemma {:induction false} FromDictFromError(ms: seq<(string, nat)>, d: seq<(string, bool)>, flags: Flags)
    ensures FromDictFrom(ms, d, flags).Err?
            <==> exists k :: 0 <= k < |d| && d[k].1 && Lookup(ms, d[k].0).None?
  {
    if d != [] {
      var l := Lookup(ms, d[0].0);
      if !(d[0].1 && l.None?) {
        var next := if d[0].1 then flags + {l.value} else flags;
        FromDictFromError(ms, d[1..], next);
        assert forall k :: 1 <= k < |d| ==> d[k] == d[1..][k - 1];
      }
    }
  }

  /** `from_dict(value)`, starting from `cls(0)`: KeyError exactly when a
      name mapped to true is no member. */
  function FromDict(d: seq<(string, bool)>): (r: Result<Flags>)
    ensures r.Err? <==> exists k :: 0 <= k < |d| && d[k].1 && Lookup(Members(), d[k].0).None?
    ensures r.Err? ==> r.exc == KeyError
  {
    FromDictFromError(Members(), d, {});
    FromDictFrom(Members(), d, {})
  }

  /** The dictionary with the grantable names mapped to `b`, in order. */
  function GrantDict(b: seq<bool>): (r: seq<(string, bool)>)
    requires |b| == |Grantable|
    ensures |r| == |b| && forall k :: 0 <= k < |b| ==> r[k] == (Grantable[k].0, b[k])
  {
    seq(|b|, k requires 0 <= k < |b| => (Grantable[k].0, b[k]))
  }

  /** The bits of the grantable entries of `b` from index `i` on that are
      mapped to true. */
  function PackFrom(b: seq<bool>, i: nat): (r: Flags)
    requires |b| == |Grantable| && i <= |b|
    decreases |b| - i
  {
    if i == |b| then {}
    else (if b[i] then {Grantable[i].1} else {}) + PackFrom(b, i + 1)
  }

  /** The packed bits are those of the entries from `i` on mapped to true. */
  lemma {:induction false} PackFromMembers(b: seq<bool>, i: nat, n: nat)
    requires |b| == |Grantable| && i <= |b|
    ensures n in PackFrom(b, i) <==> exists k :: i <= k < |b| && b[k] && Grantable[k].1 == n
    decreases |b| - i
  {
    if i < |b| {
      PackFromMembers(b, i + 1, n);
    }
  }

  lemma {:induction false} FromGrantSuffix(b: seq<bool>, i: nat, flags: Flags)
    requires |b| == |Grantable| && i <= |b|
    ensures FromDictFrom(Members(), GrantDict(b)[i..], flags) == Ok(flags + PackFrom(b, i))
    decreases |b| - i
  {
    var d := GrantDict(b)[i..];
    if i < |b| {
      assert d[0] == (Grantable[i].0, b[i]) && d[1..] == GrantDict(b)[i + 1..];
      var next := if b[i] then flags + {Grantable[i].1} else flags;
      LookupGrantable(i);
      assert FromDictFrom(Members(), d, flags) == FromDictFrom(Members(), d[1..], next);
      FromGrantSuffix(b, i + 1, next);
      assert next + PackFrom(b, i + 1) == flags + PackFrom(b, i);
    } else {
      assert d == [] && PackFrom(b, i) == {};
      assert flags + {} == flags;
    }
  }

  /** `from_dict` of a full permission dictionary sets exactly the bits
      mapped to true. */
  lemma FromGrantDict(b: seq<bool>)
    requires |b| == |Grantable|
    ensures FromDict(GrantDict(b)) == Ok(PackFrom(b, 0))
    ensures forall k :: 0 <= k < |b| ==> (Grantable[k].1 in PackFrom(b, 0) <==> b[k])
  {
    assert GrantDict(b)[0..] == GrantDict(b);
    FromGrantSuffix(b, 0, {});
    assert {} + PackFrom(b, 0) == PackFrom(b, 0);
    PackFromExact(b);
  }

  /** Each grantable name's bit is packed exactly when it maps to true. */
  lemma PackFromExact(b: seq<bool>)
    requires |b| == |Grantable|
    ensures forall k :: 0 <= k < |b| ==> (Grantable[k].1 in PackFrom(b, 0) <==> b[k])
  {
    forall k | 0 <= k < |b|
      ensures Grantable[k].1 in PackFrom(b, 0) <==> b[k]
    {
      PackFromMembers(b, 0, Grantable[k].1);
      GrantableBitsDistinct(k);
    }
  }

  /** No two grantable names share a bit. */
  lemma GrantableBitsDistinct(k: nat)
    requires k < |Grantable|
    ensures forall j :: 0 <= j < |Grantable| && j != k ==> Grantable[j].1 != Grantable[k].1
  {
  }

  /** `to_dict` is the full permission dictionary of the set bits. */
  lemma ToDictIsGrantDict(p: Flags)
    ensures ToDict(p) == GrantDict(seq(8, k requires 0 <= k < 8 => IsSet(p, Grantable[k].1)))
  {
  }

  /** `from_dict(to_dict(p))` keeps exactly the grantable bits of `p`: the
      reserved bits do not survive the round trip. */
  lemma FromToDict(p: Flags)
    ensures FromDict(ToDict(p)) == Ok(p * GrantableMask())
  {
    var b := seq(8, k requires 0 <= k < 8 => IsSet(p, Grantable[k].1));
    ToDictIsGrantDict(p);
    FromGrantDict(b);
    var q := PackFrom(b, 0);
    forall n | n in q
      ensures n in p * GrantableMask()
    {
      PackFromMembers(b, 0, n);
      var k :| 0 <= k < |b| && b[k] && Grantable[k].1 == n;
    }
    forall n | n in p * GrantableMask()
      ensures n in q
    {
      var k :| 0 <= k < |Grantable| && Grantable[k].1 == n;
      assert b[k];
      PackFromMembers(b, 0, n);
    }
    assert q == p * GrantableMask();
  }

  /** `to_dict(from_dict(d))` gives back any full permission dictionary. */
  lemma ToFromDict(b: seq<bool>)
    requires |b| == |Grantable|
    ensures FromDict(GrantDict(b)).Ok?
    ensures ToDict(FromDict(GrantDict(b)).value) == GrantDict(b)
  {
    FromGrantDict(b);
    var p := PackFrom(b, 0);
    ToDictIsGrantDict(p);
    assert seq(8, k requires 0 <= k < 8 => IsSet(p, Grantable[k].1)) == b;
  }

  /** `from_dict` accepts the reserved names too, although `to_dict` never
      lists them. */
  lemma FromDictReserved()
    ensures FromDict([("R1", true), ("PRINT", true)]) == Ok({0, 2})
  {
    LookupFirst(LowMembers, 0);
    assert LowMembers[0] == ("R1", 0);
    LookupAppend(LowMembers, HighMembers(), "R1");
    assert Lookup(Members(), "R1") == Some(0);
    LookupGrantable(0);
    var d: seq<(string, bool)> := [("R1", true), ("PRINT", true)];
    assert d[1..] == [("PRINT", true)] && d[1..][1..] == [];
    assert FromDictFrom(Members(), d[1..], {0}) == Ok({0} + {2});
    assert {} + {0} == {0} && {0} + {2} == {0, 2};
  }

  /** An unknown name is an error only when it maps to true. */
  lemma FromDictUnknown()
    ensures FromDict([("PRINT", true), ("COPY", false)]) == Ok({2})
    ensures FromDict([("PRINT", true), ("COPY", true)]) == Err(KeyError)
  {
    LookupGrantable(0);
    LookupMissing("COPY");
    var d: seq<(string, bool)> := [("PRINT", true), ("COPY", false)];
    assert d[1..] == [("COPY", false)] && d[1..][1..] == [];
    assert {} + {2} == {2};
  }
}
