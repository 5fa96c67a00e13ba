/** Page labels (section 12.4.2 of ISO 32000-1) and the flat number-tree
    array `/Nums` they live in (section 7.9.7): label rendering as decimal,
    Roman and alphabetic numerals, and the insert / clear-range / next
    operations on a `[key0 value0 key1 value1 ...]` array. */
module PageLabels {
  import opened PyBase
  import opened PyText
  import opened PdfObjects

  // ---------------------------------------------------------------------
  // Roman numerals
  // ---------------------------------------------------------------------

  /** Value of one Roman digit; 0 for any other character. */
  function RomanDigit(c: char): nat
  {
    match c
    case 'I' => 1
    case 'V' => 5
    case 'X' => 10
    case 'L' => 50
    case 'C' => 100
    case 'D' => 500
    case 'M' => 1000
    case _ => 0
  }

  /** The subtractive-pair table `to_roman` walks, largest first.  Each
      entry is one digit, or a smaller digit followed by a larger one whose
      difference is the entry's value. */
  function Numeral(j: nat): (r: (string, nat))
    requires j < 13
    ensures 1 <= |r.0| <= 2 && r.1 >= 1
    ensures forall k :: 0 <= k < |r.0| ==> IsUpper(r.0[k])
    ensures |r.0| == 1 ==> RomanDigit(r.0[0]) == r.1
    ensures |r.0| == 2 ==> RomanDigit(r.0[0]) < RomanDigit(r.0[1]) && RomanDigit(r.0[1]) - RomanDigit(r.0[0]) == r.1
    ensures RomanDigit(r.0[0]) <= r.1 <= RomanDigit(r.0[|r.0| - 1])
    ensures j == 12 ==> r.1 == 1
  {
    match j
    case 0 => ("M", 1000)
    case 1 => ("CM", 900)
    case 2 => ("D", 500)
    case 3 => ("CD", 400)
    case 4 => ("C", 100)
    case 5 => ("XC", 90)
    case 6 => ("L", 50)
    case 7 => ("XL", 40)
    case 8 => ("X", 10)
    case 9 => ("IX", 9)
    case 10 => ("V", 5)
    case 11 => ("IV", 4)
    case _ => ("I", 1)
  }

  lemma NumeralDecreasing(j: nat)
    requires 0 < j < 13
    ensures Numeral(j).1 < Numeral(j - 1).1
  {
  }

  /** The greedy loop of `to_roman` from table entry `j` on: emit entry `j`
      while it fits, then move to the next entry.  Its first digit is never
      worth more than the entry it started from. */
  function RomanFrom(num: nat, j: nat): (r: string)
    requires j <= 13
    ensures forall k :: 0 <= k < |r| ==> IsUpper(r[k])
    ensures r != [] ==> j < 13 && RomanDigit(r[0]) <= Numeral(j).1
    decreases 13 - j, num
  {
    if j == 13 then ""
    else if num >= Numeral(j).1 then Numeral(j).0 + RomanFrom(num - Numeral(j).1, j)
    else if j + 1 < 13 then NumeralDecreasing(j + 1); RomanFrom(num, j + 1)
    else RomanFrom(num, j + 1)
  }

  /** `to_roman(num)`: nothing for a number below 1. */
  function ToRoman(num: int): string
  {
    if num <= 0 then "" else RomanFrom(num, 0)
  }

  /** The reading of a Roman numeral: a digit counts negatively when the
      digit after it is worth more. */
  function RomanValue(s: string): int
  {
    if |s| == 0 then 0
    else if |s| >= 2 && RomanDigit(s[0]) < RomanDigit(s[1]) then RomanValue(s[1..]) - RomanDigit(s[0])
    else RomanValue(s[1..]) + RomanDigit(s[0])
  }

  /** Putting a table entry in front of a numeral whose first digit is
      worth no more than the entry adds the entry's value. */
  lemma PrependNumeral(j: nat, rest: string)
    requires j < 13
    requires rest == [] || RomanDigit(rest[0]) <= Numeral(j).1
    ensures RomanValue(Numeral(j).0 + rest) == Numeral(j).1 + RomanValue(rest)
  {
    var sym := Numeral(j).0;
    NumeralShape(j);
    if |sym| == 1 {
      assert sym == [sym[0]];
      PrependDigit(sym[0], rest);
    } else {
      assert sym == [sym[0], sym[1]];
      PrependPair(sym[0], sym[1], rest);
    }
  }

  /** Each table entry is one digit worth the entry, or a smaller digit
      before a larger one, worth their difference. */
  lemma NumeralShape(j: nat)
    requires j < 13
    ensures var (sym, v) := Numeral(j);
            (|sym| == 1 && RomanDigit(sym[0]) == v)
            || (|sym| == 2 && RomanDigit(sym[0]) < RomanDigit(sym[1]) && RomanDigit(sym[1]) - RomanDigit(sym[0]) == v)
  {
    if j == 0 {} else if j == 1 {} else if j == 2 {} else if j == 3 {} else if j == 4 {}
    else if j == 5 {} else if j == 6 {} else if j == 7 {} else if j == 8 {} else if j == 9 {}
    else if j == 10 {} else if j == 11 {} else {}
  }

  lemma PrependDigit(c: char, rest: string)
    requires rest == [] || RomanDigit(rest[0]) <= RomanDigit(c)
    ensures RomanValue([c] + rest) == RomanDigit(c) + RomanValue(rest)
  {
    assert ([c] + rest)[1..] == rest;
  }

  lemma PrependPair(a: char, b: char, rest: string)
    requires RomanDigit(a) < RomanDigit(b)
    requires rest == [] || RomanDigit(rest[0]) <= RomanDigit(b)
    ensures RomanValue([a, b] + rest) == RomanDigit(b) - RomanDigit(a) + RomanValue(rest)
  {
    var s := [a, b] + rest;
    assert s[0] == a && s[1] == b && s[1..] == [b] + rest;
    assert RomanValue(s) == RomanValue(s[1..]) - RomanDigit(a);
    PrependDigit(b, rest);
  }

  lemma {:induction false} RomanFromValue(num: nat, j: nat)
    requires j <= 13
    requires j > 0 ==> num < Numeral(j - 1).1
    ensures RomanValue(RomanFrom(num, j)) == num
    decreases 13 - j, num
  {
    if j == 13 {
    } else if num >= Numeral(j).1 {
      RomanFromValue(num - Numeral(j).1, j);
      PrependNumeral(j, RomanFrom(num - Numeral(j).1, j));
    } else {
      RomanFromValue(num, j + 1);
    }
  }

  /** Reading back what `to_roman` wrote gives the number (0 for numbers
      below 1, which render as nothing). */
  lemma RomanRoundTrip(num: int)
    ensures RomanValue(ToRoman(num)) == Max(0, num)
  {
    if num > 0 {
      RomanFromValue(num, 0);
    }
  }

  /** Different positive numbers get different Roman numerals. */
  lemma RomanInjective(a: int, b: int)
    requires a >= 1 && b >= 1 && ToRoman(a) == ToRoman(b)
    ensures a == b
  {
    RomanRoundTrip(a);
    RomanRoundTrip(b);
  }


  lemma {:induction false} NumeralMonotone(j: nat, t: nat)
    requires j <= t < 13
    ensures Numeral(t).1 <= Numeral(j).1
    decreases t - j
  {
    if j < t {
      NumeralMonotone(j + 1, t);
      NumeralDecreasing(j + 1);
    }
  }

  /** Table entries worth more than what is left are passed over. */
  lemma {:induction false} RomanSkipTo(num: nat, j: nat, t: nat)
    requires 1 <= t <= 13 && j <= t && num < Numeral(t - 1).1
    ensures RomanFrom(num, j) == RomanFrom(num, t)
    decreases t - j
  {
    if j < t {
      NumeralMonotone(j, t - 1);
      RomanSkipTo(num, j + 1, t);
    }
  }

  lemma RomanExamples()
    ensures ToRoman(4) == "IV" && ToRoman(9) == "IX" && ToRoman(14) == "XIV"
    ensures ToRoman(0) == "" && ToRoman(-3) == ""
  {
    RomanSkipTo(0, 11, 13);
    RomanSkipTo(0, 9, 13);
    RomanSkipTo(4, 0, 11);
    assert RomanFrom(4, 11) == "IV" + RomanFrom(0, 11);
    RomanSkipTo(9, 0, 9);
    assert RomanFrom(9, 9) == "IX" + RomanFrom(0, 9);
    RomanSkipTo(14, 0, 8);
    RomanSkipTo(4, 8, 11);
    assert RomanFrom(14, 8) == "X" + RomanFrom(4, 8);
  }

  // ---------------------------------------------------------------------
  // Alphabetic numerals (bijective base 26)
  // ---------------------------------------------------------------------

  /** `to_alpha(num)`: 1..26 are A..Z, 27 is AA, and so on; nothing for a
      number below 1. */
  function ToAlpha(num: int): (r: string)
    ensures forall k :: 0 <= k < |r| ==> IsUpper(r[k])
    decreases num
  {
    if num <= 0 then ""
    else ToAlpha((num - 1) / 26) + [(65 + (num - 1) % 26) as char]
  }

  /** The number an upper-case letter string stands for in bijective
      base 26 (A = 1, ..., Z = 26). */
  function AlphaValue(s: string): nat
    requires forall k :: 0 <= k < |s| ==> IsUpper(s[k])
  {
    if s == [] then 0
    else
      assert IsUpper(s[|s| - 1]);
      AlphaValue(s[..|s| - 1]) * 26 + (s[|s| - 1] as int - 64)
  }

  lemma {:induction false} AlphaRoundTrip(num: nat)
    ensures AlphaValue(ToAlpha(num)) == num
    decreases num
  {
    if num > 0 {
      var q := (num - 1) / 26;
      var s := ToAlpha(num);
      AlphaRoundTrip(q);
      assert s[..|s| - 1] == ToAlpha(q);
    }
  }

  lemma AlphaInjective(a: nat, b: nat)
    requires ToAlpha(a) == ToAlpha(b)
    ensures a == b
  {
    AlphaRoundTrip(a);
    AlphaRoundTrip(b);
  }

  lemma DivModDigit(a: nat, d: int)
    requires 0 <= d < 26
    ensures (a * 26 + d) / 26 == a && (a * 26 + d) % 26 == d
  {
  }

  lemma {:induction false} AlphaInverse(s: string)
    requires forall k :: 0 <= k < |s| ==> IsUpper(s[k])
    ensures ToAlpha(AlphaValue(s)) == s
    decreases |s|
  {
    if s != [] {
      var init := s[..|s| - 1];
      var d := s[|s| - 1] as int - 65;
      AlphaInverse(init);
      DivModDigit(AlphaValue(init), d);
      assert AlphaValue(s) - 1 == AlphaValue(init) * 26 + d;
      assert init + [s[|s| - 1]] == s;
    }
  }

  lemma AlphaExamples()
    ensures ToAlpha(1) == "A" && ToAlpha(26) == "Z" && ToAlpha(27) == "AA"
    ensures ToAlpha(52) == "AZ" && ToAlpha(53) == "BA" && ToAlpha(0) == ""
  {
  }

  // ---------------------------------------------------------------------
  // Number-tree arrays
  // ---------------------------------------------------------------------

  /** `nums[i] > key` (`strict`) or `nums[i] >= key` against a Python
      integer: a `NumberObject` or `FloatObject` key compares by value, and
      any other object raises TypeError. */
  function KeyAbove(o: Obj, key: int, strict: bool): (r: Result<bool>)
    ensures r.Ok? <==> IsNumber(o)
    ensures r.Err? ==> r.exc == TypeError
  {
    if !IsNumber(o) then Err(TypeError)
    else if strict then Ok(NumberValue(o) > key as real)
    else Ok(NumberValue(o) >= key as real)
  }

  /** The key `index2label` keeps as `start_index` and counts pages from.
      Only an integer key is carried on; a real one, which Python would
      carry into the page arithmetic as a float, is reported as TypeError
      (see README "## Left out"). */
  function KeyOf(o: Obj): (r: Result<int>)
    ensures o.Int? <==> r.Ok?
    ensures r.Ok? ==> r.value == o.i
    ensures r.Err? ==> r.exc == TypeError
  {
    if o.Int? then Ok(o.i) else Err(TypeError)
  }

  /** A well-formed `/Nums` array: integer keys at the even positions, and
      values that are no numbers (dictionaries or references) at the odd
      ones. */
  predicate NumberTree(nums: seq<Obj>)
  {
    |nums| % 2 == 0 && forall k :: 0 <= k < |nums| ==> (nums[k].Int? <==> k % 2 == 0) && !nums[k].Float?
  }

  /** The keys ascend (ties allowed). */
  predicate Sorted(nums: seq<Obj>)
    requires NumberTree(nums)
  {
    forall a, b :: 0 <= a < b < |nums| && a % 2 == 0 && b % 2 == 0 ==> nums[a].i <= nums[b].i
  }

  /** The entries at positions `i`, `i+2`, ... before `p` are integers
      below `bound` (`strict`) or not above it. */
  predicate KeysBelow(nums: seq<Obj>, i: nat, p: nat, bound: int, strict: bool)
  {
    forall k :: i <= k < p && k < |nums| && (k - i) % 2 == 0 ==>
      (IsNumber(nums[k]) && (if strict then NumberValue(nums[k]) < bound as real else NumberValue(nums[k]) <= bound as real))
  }

  /** The loop of `nums_insert` from position `i`: the first position
      whose key is greater than `key`, or the array's end.  It fails exactly
      when a key that is no number is met before a greater one. */
  function InsertPos(nums: seq<Obj>, key: int, i: nat): (r: Result<nat>)
    ensures r.Err? ==> r.exc == TypeError
    ensures r.Ok? ==> r.value <= |nums| && (i <= |nums| ==> i <= r.value)
    ensures r.Ok? && r.value < |nums| ==>
      (i <= r.value && (r.value - i) % 2 == 0 && IsNumber(nums[r.value]) && NumberValue(nums[r.value]) > key as real)
    decreases |nums| - i
  {
    if i >= |nums| then Ok(|nums|)
    else
      var above :- KeyAbove(nums[i], key, true);
      if above then Ok(i) else InsertPos(nums, key, i + 2)
  }

  /** Every key the loop passes is at most `key`, and the loop fails
      exactly when a key that is no number is met before a greater one. */
  lemma InsertPosSound(nums: seq<Obj>, key: int, i: nat)
    ensures var r := InsertPos(nums, key, i);
      (r.Ok? ==> KeysBelow(nums, i, r.value, key, false))
      && (r.Err? <==>
            exists k :: i <= k < |nums| && (k - i) % 2 == 0 && !IsNumber(nums[k]) && KeysBelow(nums, i, k, key, false))
  {
    InsertPosPasses(nums, key, i);
    InsertPosFails(nums, key, i);
  }

  lemma {:induction false} InsertPosPasses(nums: seq<Obj>, key: int, i: nat)
    ensures var r := InsertPos(nums, key, i);
      r.Ok? ==> KeysBelow(nums, i, r.value, key, false)
    decreases |nums| - i
  {
    if i < |nums| && IsNumber(nums[i]) && NumberValue(nums[i]) <= key as real {
      InsertPosPasses(nums, key, i + 2);
      var r := InsertPos(nums, key, i + 2);
      assert InsertPos(nums, key, i) == r;
      if r.Ok? {
        KeysBelowStep(nums, i, r.value, key);
      }
    }
  }

  lemma InsertPosFails(nums: seq<Obj>, key: int, i: nat)
    ensures InsertPos(nums, key, i).Err? <==>
      exists k :: i <= k < |nums| && (k - i) % 2 == 0 && !IsNumber(nums[k]) && KeysBelow(nums, i, k, key, false)
  {
    if InsertPos(nums, key, i).Err? {
      InsertPosBlocker(nums, key, i);
    } else {
      forall k | i <= k < |nums| && (k - i) % 2 == 0 && !IsNumber(nums[k]) && KeysBelow(nums, i, k, key, false)
        ensures false
      {
        InsertPosBlocked(nums, key, i, k);
      }
    }
  }

  /** A failed loop names the key that stopped it, one that is no number. */
  lemma {:induction false} InsertPosBlocker(nums: seq<Obj>, key: int, i: nat)
    requires InsertPos(nums, key, i).Err?
    ensures exists k :: i <= k < |nums| && (k - i) % 2 == 0 && !IsNumber(nums[k]) && KeysBelow(nums, i, k, key, false)
    decreases |nums| - i
  {
    if IsNumber(nums[i]) {
      assert InsertPos(nums, key, i) == InsertPos(nums, key, i + 2);
      InsertPosBlocker(nums, key, i + 2);
      var k :| i + 2 <= k < |nums| && (k - (i + 2)) % 2 == 0 && !IsNumber(nums[k]) && KeysBelow(nums, i + 2, k, key, false);
      KeysBelowStep(nums, i, k, key);
      assert (k - i) % 2 == 0;
    } else {
      assert KeysBelow(nums, i, i, key, false);
    }
  }

  /** A key that is no number, reached with every earlier key at most
      `key`, makes the loop fail. */
  lemma {:induction false} InsertPosBlocked(nums: seq<Obj>, key: int, i: nat, k: nat)
    requires i <= k < |nums| && (k - i) % 2 == 0 && !IsNumber(nums[k]) && KeysBelow(nums, i, k, key, false)
    ensures InsertPos(nums, key, i).Err?
    decreases |nums| - i
  {
    if k != i {
      assert IsNumber(nums[i]) && NumberValue(nums[i]) <= key as real;
      KeysBelowStep(nums, i, k, key);
      InsertPosBlocked(nums, key, i + 2, k);
    }
  }

  /** A key at most `key` at position `i` may be added to or dropped from
      the front of the keys below it. */
  lemma KeysBelowStep(nums: seq<Obj>, i: nat, p: nat, key: int)
    requires i < |nums| && IsNumber(nums[i]) && NumberValue(nums[i]) <= key as real
    ensures KeysBelow(nums, i, p, key, false) <==> KeysBelow(nums, i + 2, p, key, false)
  {
    if KeysBelow(nums, i + 2, p, key, false) {
      forall k | i <= k < p && k < |nums| && (k - i) % 2 == 0
        ensures IsNumber(nums[k]) && NumberValue(nums[k]) <= key as real
      {
        if k != i {
          assert (k - (i + 2)) % 2 == 0;
        }
      }
    }
    if KeysBelow(nums, i, p, key, false) {
      forall k | i + 2 <= k < p && k < |nums| && (k - (i + 2)) % 2 == 0
        ensures IsNumber(nums[k]) && NumberValue(nums[k]) <= key as real
      {
        assert (k - i) % 2 == 0;
      }
    }
  }

  /** `nums_insert(key, value, nums)`: the pair goes in before the first
      strictly greater key, or at the end; every earlier key is at most
      `key`. */
  function NumsInsert(key: int, value: Obj, nums: seq<Obj>): (r: Result<seq<Obj>>)
    ensures r.Err? ==> r.exc == TypeError
    ensures r.Ok? ==>
      (exists p :: 0 <= p <= |nums| && r.value == nums[..p] + [Int(key), value] + nums[p..]
        && KeysBelow(nums, 0, p, key, false) && (p < |nums| ==> IsNumber(nums[p]) && NumberValue(nums[p]) > key as real))
  {
    var p :- InsertPos(nums, key, 0);
    InsertPosSound(nums, key, 0);
    Ok(nums[..p] + [Int(key), value] + nums[p..])
  }

  lemma {:induction false} InsertPosInTree(nums: seq<Obj>, key: int, i: nat)
    requires NumberTree(nums) && i % 2 == 0
    ensures InsertPos(nums, key, i).Ok? && InsertPos(nums, key, i).value % 2 == 0
    decreases |nums| - i
  {
    if i < |nums| && nums[i].i <= key {
      InsertPosInTree(nums, key, i + 2);
    }
  }

  /** `nums[..p] + [x, y] + nums[p..]`, position by position. */
  lemma InsertedAt(nums: seq<Obj>, p: nat, x: Obj, y: Obj)
    requires p <= |nums|
    ensures var r := nums[..p] + [x, y] + nums[p..];
      |r| == |nums| + 2 && r[p] == x && r[p + 1] == y
      && (forall k :: 0 <= k < p ==> r[k] == nums[k])
      && (forall k :: p + 2 <= k < |r| ==> r[k] == nums[k - 2])
  {
  }

  lemma InsertKeepsTree(nums: seq<Obj>, p: nat, key: int, value: Obj)
    requires NumberTree(nums) && p <= |nums| && p % 2 == 0 && !IsNumber(value)
    ensures NumberTree(nums[..p] + [Int(key), value] + nums[p..])
  {
    InsertedAt(nums, p, Int(key), value);
  }

  lemma InsertKeepsOrder(nums: seq<Obj>, p: nat, key: int, value: Obj)
    requires NumberTree(nums) && Sorted(nums) && p <= |nums| && p % 2 == 0 && !IsNumber(value)
    requires KeysBelow(nums, 0, p, key, false) && (p < |nums| ==> nums[p].i > key)
    ensures NumberTree(nums[..p] + [Int(key), value] + nums[p..])
    ensures Sorted(nums[..p] + [Int(key), value] + nums[p..])
  {
    InsertKeepsTree(nums, p, key, value);
    InsertedAt(nums, p, Int(key), value);
    var r := nums[..p] + [Int(key), value] + nums[p..];
    forall a, b | 0 <= a < b < |r| && a % 2 == 0 && b % 2 == 0
      ensures r[a].i <= r[b].i
    {
      if b >= p + 2 {
        assert nums[p].i <= nums[b - 2].i;
        if a >= p + 2 {
          assert nums[a - 2].i <= nums[b - 2].i;
        }
      }
    }
  }

  lemma InsertedMultiset(nums: seq<Obj>, p: nat, x: Obj, y: Obj)
    requires p <= |nums|
    ensures multiset(nums[..p] + [x, y] + nums[p..]) == multiset(nums) + multiset{x, y}
  {
    assert nums[..p] + nums[p..] == nums;
  }

  /** Inserting into a sorted number tree keeps it a sorted number tree,
      and nothing is lost or merged: an existing equal key stays, so the
      key occurs once more than before. */
  lemma InsertKeepsSorted(key: int, value: Obj, nums: seq<Obj>)
    requires NumberTree(nums) && Sorted(nums) && !IsNumber(value)
    ensures NumsInsert(key, value, nums).Ok?
    ensures NumberTree(NumsInsert(key, value, nums).value)
    ensures Sorted(NumsInsert(key, value, nums).value)
    ensures multiset(NumsInsert(key, value, nums).value) == multiset(nums) + multiset{Int(key), value}
    ensures multiset(NumsInsert(key, value, nums).value)[Int(key)] == multiset(nums)[Int(key)] + 1
  {
    InsertPosInTree(nums, key, 0);
    InsertPosSound(nums, key, 0);
    var p := InsertPos(nums, key, 0).value;
    InsertKeepsOrder(nums, p, key, value);
    InsertedMultiset(nums, p, Int(key), value);
  }

  /** `o == key` for an integer `key`: Python compares an integer or a
      real number by value, and every other object is unequal. */
  predicate EqualsKey(o: Obj, key: int)
  {
    IsNumber(o) && NumberValue(o) == key as real
  }

  /** The first item equal to `key` at or after `i`: `key in nums` and
      `nums.index(key)`. */
  function IndexOfKey(nums: seq<Obj>, key: int, i: nat): (r: Option<nat>)
    ensures r.Some? ==> i <= r.value < |nums| && EqualsKey(nums[r.value], key)
    ensures forall k :: i <= k < |nums| && (r.None? || k < r.value) ==> !EqualsKey(nums[k], key)
    decreases |nums| - i
  {
    if i >= |nums| then None
    else if EqualsKey(nums[i], key) then Some(i)
    else IndexOfKey(nums, key, i + 1)
  }

  /** Where `nums_clear_range` starts deleting: just after the pair for
      `key`, or at the front (`-2 + 2`) when `key` is absent. */
  function ClearFrom(nums: seq<Obj>, key: int): (r: nat)
    ensures IndexOfKey(nums, key, 0).Some? ==> r == IndexOfKey(nums, key, 0).value + 2
    ensures IndexOfKey(nums, key, 0).None? ==> r == 0
  {
    match IndexOfKey(nums, key, 0)
    case Some(p) => p + 2
    case None => 0
  }

  /** The loop of `nums_clear_range`: step over keys below `bound`. */
  function ScanBelow(nums: seq<Obj>, bound: int, i: nat): (r: Result<nat>)
    ensures r.Err? ==> r.exc == TypeError
    ensures r.Ok? ==> i <= r.value && (r.value - i) % 2 == 0 && r.value <= Max(i, |nums| + 1)
    ensures r.Ok? && r.value < |nums| ==> IsNumber(nums[r.value]) && NumberValue(nums[r.value]) >= bound as real
    ensures r.Ok? ==> KeysBelow(nums, i, r.value, bound, true)
    ensures r.Err? <==>
      exists k :: i <= k < |nums| && (k - i) % 2 == 0 && !IsNumber(nums[k]) && KeysBelow(nums, i, k, bound, true)
    decreases |nums| - i
  {
    if i >= |nums| then Ok(i)
    else
      var atBound :- KeyAbove(nums[i], bound, false);
      if atBound then Ok(i) else ScanBelow(nums, bound, i + 2)
  }

  /** `nums_clear_range(key, page_index_to, nums)`: delete the entries
      after `key` (from the front when `key` is absent) up to the first
      key at or above `page_index_to`. */
  function NumsClearRange(key: int, pageIndexTo: int, nums: seq<Obj>): (r: Result<seq<Obj>>)
    ensures r.Err? ==> r.exc == TypeError
    ensures r.Ok? ==> (exists lo, hi :: 0 <= lo <= hi <= |nums| && r.value == nums[..lo] + nums[hi..])
    ensures r.Ok? ==> var keep := Min(ClearFrom(nums, key), |nums|);
              keep <= |r.value| && r.value[..keep] == nums[..keep]
  {
    var lo := ClearFrom(nums, key);
    var q :- ScanBelow(nums, pageIndexTo, lo);
    Ok(nums[..Min(lo, |nums|)] + nums[Min(q, |nums|)..])
  }

  lemma {:induction false} ScanBelowInTree(nums: seq<Obj>, bound: int, i: nat)
    requires NumberTree(nums) && i % 2 == 0
    ensures ScanBelow(nums, bound, i).Ok? && ScanBelow(nums, bound, i).value <= Max(i, |nums|)
    decreases |nums| - i
  {
    if i < |nums| && nums[i].i < bound {
      ScanBelowInTree(nums, bound, i + 2);
    }
  }

  /** In a number tree the deleted stretch is a run of whole pairs, all
      with keys below `pageIndexTo`, ending at the first key at or above
      it; the pair for `key` itself stays. */
  lemma ClearRangeInTree(key: int, pageIndexTo: int, nums: seq<Obj>)
    requires NumberTree(nums)
    ensures ClearFrom(nums, key) % 2 == 0 && ClearFrom(nums, key) <= |nums|
    ensures ScanBelow(nums, pageIndexTo, ClearFrom(nums, key)).Ok?
    ensures var lo := ClearFrom(nums, key);
      var hi := ScanBelow(nums, pageIndexTo, lo).value;
      lo <= hi <= |nums| && hi % 2 == 0
      && NumsClearRange(key, pageIndexTo, nums) == Ok(nums[..lo] + nums[hi..])
      && KeysBelow(nums, lo, hi, pageIndexTo, true)
      && (hi < |nums| ==> nums[hi].i >= pageIndexTo)
  {
    var lo := ClearFrom(nums, key);
    if IndexOfKey(nums, key, 0).Some? {
      assert nums[lo - 2].Int?;
    }
    ScanBelowInTree(nums, pageIndexTo, lo);
  }

  /** `nums[..lo] + nums[hi..]`, position by position. */
  lemma DroppedAt(nums: seq<Obj>, lo: nat, hi: nat)
    requires lo <= hi <= |nums|
    ensures var r := nums[..lo] + nums[hi..];
      |r| == |nums| - (hi - lo)
      && (forall k :: 0 <= k < lo ==> r[k] == nums[k])
      && (forall k :: lo <= k < |r| ==> r[k] == nums[k - lo + hi])
  {
  }

  /** Cutting out whole pairs leaves a number tree, sorted if it was. */
  lemma DropPairs(nums: seq<Obj>, lo: nat, hi: nat)
    requires NumberTree(nums) && lo <= hi <= |nums| && lo % 2 == 0 && hi % 2 == 0
    ensures NumberTree(nums[..lo] + nums[hi..])
    ensures Sorted(nums) ==> Sorted(nums[..lo] + nums[hi..])
  {
    DropPairsTree(nums, lo, hi);
    if Sorted(nums) {
      DropPairsSorted(nums, lo, hi);
    }
  }

  lemma DropPairsTree(nums: seq<Obj>, lo: nat, hi: nat)
    requires NumberTree(nums) && lo <= hi <= |nums| && lo % 2 == 0 && hi % 2 == 0
    ensures NumberTree(nums[..lo] + nums[hi..])
  {
    DroppedAt(nums, lo, hi);
    var r := nums[..lo] + nums[hi..];
    forall k | lo <= k < |r|
      ensures r[k].Int? <==> k % 2 == 0
    {
      var k' := k - lo + hi;
      assert r[k] == nums[k'];
      EvenShift(k, lo, hi);
    }
  }

  lemma EvenShift(k: int, lo: int, hi: int)
    requires lo % 2 == 0 && hi % 2 == 0
    ensures (k - lo + hi) % 2 == k % 2
  {
  }

  lemma DropPairsSorted(nums: seq<Obj>, lo: nat, hi: nat)
    requires NumberTree(nums) && Sorted(nums) && lo <= hi <= |nums| && lo % 2 == 0 && hi % 2 == 0
    requires NumberTree(nums[..lo] + nums[hi..])
    ensures Sorted(nums[..lo] + nums[hi..])
  {
    DroppedAt(nums, lo, hi);
    var r := nums[..lo] + nums[hi..];
    forall a, b | 0 <= a < b < |r| && a % 2 == 0 && b % 2 == 0
      ensures r[a].i <= r[b].i
    {
      var a' := if a < lo then a else a - lo + hi;
      var b' := if b < lo then b else b - lo + hi;
      assert r[a] == nums[a'] && r[b] == nums[b'];
    }
  }

  /** Clearing keeps a sorted number tree sorted. */
  lemma ClearRangeKeepsSorted(key: int, pageIndexTo: int, nums: seq<Obj>)
    requires NumberTree(nums) && Sorted(nums)
    ensures NumsClearRange(key, pageIndexTo, nums).Ok?
    ensures NumberTree(NumsClearRange(key, pageIndexTo, nums).value)
    ensures Sorted(NumsClearRange(key, pageIndexTo, nums).value)
  {
    ClearRangeInTree(key, pageIndexTo, nums);
    var lo := ClearFrom(nums, key);
    DropPairs(nums, lo, ScanBelow(nums, pageIndexTo, lo).value);
  }

  /** The loop of `nums_next` from position `i`: the position of the first
      key greater than `key`.  A key in last position with no value after
      it raises IndexError. */
  function NextPos(key: int, nums: seq<Obj>, i: nat): (r: Result<Option<nat>>)
    ensures r.Err? ==> r.exc == TypeError || r.exc == IndexError
    ensures r.Ok? && r.value.Some? ==>
      (var p := r.value.value;
       i <= p && p + 1 < |nums| && (p - i) % 2 == 0 && IsNumber(nums[p]) && NumberValue(nums[p]) > key as real
       && KeysBelow(nums, i, p, key, false))
    ensures r.Ok? && r.value.None? ==> KeysBelow(nums, i, |nums|, key, false)
    decreases |nums| - i
  {
    if i >= |nums| then Ok(None)
    else
      var above :- KeyAbove(nums[i], key, true);
      if above then
        if i + 1 < |nums| then Ok(Some(i)) else Err(IndexError)
      else NextPos(key, nums, i + 2)
  }

  /** `nums_next(key, nums)`: the pair after the entry for `key`, or
      `(None, None)`. */
  function NumsNext(key: int, nums: seq<Obj>): (r: Result<Option<(Obj, Obj)>>)
    ensures r.Ok? && r.value.Some? ==> IsNumber(r.value.value.0) && NumberValue(r.value.value.0) > key as real
    ensures r.Ok? && r.value.Some? ==> r.value.value.0 in nums && r.value.value.1 in nums
  {
    var p :- NextPos(key, nums, 0);
    match p
    case None => Ok(None)
    case Some(p) => Ok(Some((nums[p], nums[p + 1])))
  }

  /** The loop fails with TypeError exactly when a key that is no number
      is met before a greater one. */
  lemma NextPosFails(key: int, nums: seq<Obj>, i: nat)
    ensures var r := NextPos(key, nums, i);
      r.Err? && r.exc == TypeError <==>
      exists k :: i <= k < |nums| && (k - i) % 2 == 0 && !IsNumber(nums[k]) && KeysBelow(nums, i, k, key, false)
  {
    var r := NextPos(key, nums, i);
    if r.Err? && r.exc == TypeError {
      NextPosBlocker(key, nums, i);
    } else {
      forall k | i <= k < |nums| && (k - i) % 2 == 0 && !IsNumber(nums[k]) && KeysBelow(nums, i, k, key, false)
        ensures false
      {
        NextPosBlocked(key, nums, i, k);
      }
    }
  }

  /** A TypeError names the key that stopped the loop, one that is no
      number. */
  lemma {:induction false} NextPosBlocker(key: int, nums: seq<Obj>, i: nat)
    requires NextPos(key, nums, i) == Err(TypeError)
    ensures exists k :: i <= k < |nums| && (k - i) % 2 == 0 && !IsNumber(nums[k]) && KeysBelow(nums, i, k, key, false)
    decreases |nums| - i
  {
    if IsNumber(nums[i]) {
      assert NextPos(key, nums, i) == NextPos(key, nums, i + 2);
      NextPosBlocker(key, nums, i + 2);
      var k :| i + 2 <= k < |nums| && (k - (i + 2)) % 2 == 0 && !IsNumber(nums[k]) && KeysBelow(nums, i + 2, k, key, false);
      KeysBelowStep(nums, i, k, key);
      assert (k - i) % 2 == 0;
    } else {
      assert KeysBelow(nums, i, i, key, false);
    }
  }

  /** A key that is no number, reached with every earlier key at most
      `key`, makes the loop fail with TypeError. */
  lemma {:induction false} NextPosBlocked(key: int, nums: seq<Obj>, i: nat, k: nat)
    requires i <= k < |nums| && (k - i) % 2 == 0 && !IsNumber(nums[k]) && KeysBelow(nums, i, k, key, false)
    ensures NextPos(key, nums, i) == Err(TypeError)
    decreases |nums| - i
  {
    if k != i {
      assert IsNumber(nums[i]) && NumberValue(nums[i]) <= key as real;
      KeysBelowStep(nums, i, k, key);
      NextPosBlocked(key, nums, i + 2, k);
    }
  }

  lemma {:induction false} NextPosInTree(key: int, nums: seq<Obj>, i: nat)
    requires NumberTree(nums) && i % 2 == 0
    ensures NextPos(key, nums, i).Ok?
    decreases |nums| - i
  {
    if i < |nums| && nums[i].i <= key {
      NextPosInTree(key, nums, i + 2);
    }
  }

  /** A position after which keys exceed `key` and before which none do
      is the one `nums_next` finds. */
  lemma NextPosUnique(key: int, nums: seq<Obj>, q: nat)
    requires NumberTree(nums) && q % 2 == 0 && q <= |nums|
    requires KeysBelow(nums, 0, q, key, false) && (q < |nums| ==> nums[q].i > key)
    ensures NextPos(key, nums, 0) == Ok(if q < |nums| then Some(q) else None)
  {
    NextPosInTree(key, nums, 0);
    var r := NextPos(key, nums, 0).value;
    if r.Some? {
      assert !(r.value < q);
      assert !(q < r.value);
    } else {
      assert !(q < |nums|);
    }
  }

  /** In a sorted number tree `nums_next` finds the smallest key above
      `key`, and finds nothing exactly when no key is above it. */
  lemma NextIsSmallestGreater(key: int, nums: seq<Obj>)
    requires NumberTree(nums) && Sorted(nums)
    ensures NumsNext(key, nums).Ok?
    ensures NumsNext(key, nums).value.None? <==> (forall k :: 0 <= k < |nums| && k % 2 == 0 ==> nums[k].i <= key)
    ensures NumsNext(key, nums).value.Some? ==>
      (var pair := NumsNext(key, nums).value.value;
       forall k :: 0 <= k < |nums| && k % 2 == 0 && nums[k].i > key ==> pair.0.i <= nums[k].i)
  {
    NextPosInTree(key, nums, 0);
    var r := NextPos(key, nums, 0).value;
    if r.Some? {
      var p := r.value;
      forall k | 0 <= k < |nums| && k % 2 == 0 && nums[k].i > key
        ensures nums[p].i <= nums[k].i
      {
        assert !(k < p);
      }
    }
  }

  /** In a sorted tree every key up to the pair for `key` is at most `key`. */
  lemma KeysUpToEntry(nums: seq<Obj>, p: nat, key: int)
    requires NumberTree(nums) && Sorted(nums) && p < |nums| && nums[p] == Int(key)
    ensures p % 2 == 0 && KeysBelow(nums, 0, p + 2, key, false)
  {
  }

  /** With the stretch after the pair for `key` cut out, the next entry is
      the first one kept after it. */
  lemma NextAfterCleared(key: int, nums: seq<Obj>, p: nat, hi: nat)
    requires NumberTree(nums) && Sorted(nums) && p + 2 <= hi <= |nums| && hi % 2 == 0
    requires nums[p] == Int(key) && (hi < |nums| ==> nums[hi].i > key)
    ensures NextPos(key, nums[..p + 2] + nums[hi..], 0) == Ok(if hi < |nums| then Some(p + 2) else None)
  {
    KeysUpToEntry(nums, p, key);
    DropPairs(nums, p + 2, hi);
    DroppedAt(nums, p + 2, hi);
    NextPosUnique(key, nums[..p + 2] + nums[hi..], p + 2);
  }

  /** The first key at or above `bound` is where `nums_next(bound - 1)`
      stops. */
  lemma NextAtBound(nums: seq<Obj>, lo: nat, hi: nat, key: int, bound: int)
    requires NumberTree(nums) && lo % 2 == 0 && lo <= hi <= |nums| && hi % 2 == 0 && key < bound
    requires KeysBelow(nums, 0, lo, key, false) && KeysBelow(nums, lo, hi, bound, true)
    requires hi < |nums| ==> nums[hi].i >= bound
    ensures NextPos(bound - 1, nums, 0) == Ok(if hi < |nums| then Some(hi) else None)
  {
    forall k | 0 <= k < hi && k % 2 == 0
      ensures nums[k].i <= bound - 1
    {
      if k < lo {
        assert NumberValue(nums[k]) <= key as real;
      } else {
        assert (k - lo) % 2 == 0;
        assert NumberValue(nums[k]) < bound as real;
      }
    }
    NextPosUnique(bound - 1, nums, hi);
  }

  /** After clearing the range that follows `key` up to `pageIndexTo`,
      the entry after `key` is the first one at or above `pageIndexTo`. */
  lemma {:induction false} ClearThenNext(key: int, pageIndexTo: int, nums: seq<Obj>)
    requires NumberTree(nums) && Sorted(nums) && key < pageIndexTo
    requires IndexOfKey(nums, key, 0).Some?
    ensures NumsClearRange(key, pageIndexTo, nums).Ok?
    ensures NumsNext(key, NumsClearRange(key, pageIndexTo, nums).value) == NumsNext(pageIndexTo - 1, nums)
  {
    ClearRangeInTree(key, pageIndexTo, nums);
    var p := IndexOfKey(nums, key, 0).value;
    var hi := ScanBelow(nums, pageIndexTo, p + 2).value;
    NextOfCleared(key, pageIndexTo, nums, p, hi);
  }

  /** The entry after the pair for `key` at `p`, once the pairs from
      `p + 2` up to `hi` are cut out, is the first entry at or above
      `pageIndexTo`. */
  lemma NextOfCleared(key: int, pageIndexTo: int, nums: seq<Obj>, p: nat, hi: nat)
    requires NumberTree(nums) && Sorted(nums) && key < pageIndexTo
    requires p < |nums| && nums[p] == Int(key) && p + 2 <= hi <= |nums| && hi % 2 == 0
    requires KeysBelow(nums, p + 2, hi, pageIndexTo, true)
    requires hi < |nums| ==> nums[hi].i >= pageIndexTo
    ensures NumsNext(key, nums[..p + 2] + nums[hi..]) == NumsNext(pageIndexTo - 1, nums)
  {
    KeysUpToEntry(nums, p, key);
    NextAfterCleared(key, nums, p, hi);
    NextAtBound(nums, p + 2, hi, key, pageIndexTo);
    DroppedAt(nums, p + 2, hi);
  }

  /** A real key compares by value in all three loops: `2.5` stays in
      front of the inserted key 3, is passed over when clearing up to 3,
      and is the entry after key 2; `2.0` is the entry for key 2 that
      clearing starts after; a name key is TypeError. */
  lemma RealKeysCompare(d: Obj, e: Obj)
    requires !IsNumber(d)
    ensures NumsInsert(3, d, [Float(2.5), d]) == Ok([Float(2.5), d, Int(3), d])
    ensures NumsClearRange(0, 3, [Float(2.5), d]) == Ok([])
    ensures NumsClearRange(2, 5, [Float(2.0), d, Int(5), e]) == Ok([Float(2.0), d, Int(5), e])
    ensures NumsNext(2, [Float(2.5), d]) == Ok(Some((Float(2.5), d)))
    ensures NumsNext(2, [Name("/K"), d]) == Err(TypeError)
  {
    assert InsertPos([Float(2.5), d], 3, 2) == Ok(2);
    assert ScanBelow([Float(2.5), d], 3, 2) == Ok(2);
    var t := [Float(2.0), d, Int(5), e];
    assert ClearFrom(t, 2) == 2;
    assert ScanBelow(t, 5, 2) == Ok(2);
    assert t[..2] + t[2..] == t;
    assert [Float(2.5), d][..2] + [Int(3), d] + [Float(2.5), d][2..] == [Float(2.5), d, Int(3), d];
  }

  // ---------------------------------------------------------------------
  // index2label
  // ---------------------------------------------------------------------

  /** The loop of `index2label` from position `i`: the position of the
      last key not above `index` before the first key above it (`found`
      carries the one seen so far). */
  function FindLabelPos(nums: seq<Obj>, index: int, i: nat, found: Option<nat>): (r: Result<Option<nat>>)
    requires found.Some? ==> found.value < i
    ensures r.Err? ==> r.exc == TypeError || r.exc == IndexError
    ensures r.Ok? && r.value != found ==>
      (r.value.Some?
       && var p := r.value.value;
       i <= p && p + 1 < |nums| && (p - i) % 2 == 0 && nums[p].Int? && nums[p].i <= index
       && (p + 2 < |nums| ==> nums[p + 2].Int? && nums[p + 2].i > index))
    ensures r.Ok? && r.value == found ==> i >= |nums| || (nums[i].Int? && nums[i].i > index)
    decreases |nums| - i
  {
    if i >= |nums| then Ok(found)
    else
      var k :- KeyOf(nums[i]);
      if k > index then Ok(found)
      else if i + 1 >= |nums| then Err(IndexError)
      else FindLabelPos(nums, index, i + 2, Some(i))
  }

  /** `f"{prefix}"` for the prefixes a label dictionary holds: a string,
      or an integer printed in decimal. */
  function PrefixText(prefix: Obj): (r: Result<string>)
    ensures IsStr(prefix) ==> r == Ok(StrOf(prefix))
    ensures prefix.Int? ==> r == Ok(IntToString(prefix.i))
  {
    if IsStr(prefix) then Ok(StrOf(prefix))
    else if prefix.Int? then Ok(IntToString(prefix.i))
    else Err(NotImplementedError)
  }

  /** The styled part of a label: page number `pageIndex` in `style`, or
      plain `index + 1` for an unknown style. */
  function RenderStyle(style: Obj, prefix: Obj, pageIndex: int, index: int): (r: Result<string>)
  {
    if StrEq(style, "/D") then
      var p :- PrefixText(prefix); Ok(p + IntToString(pageIndex))
    else if StrEq(style, "/R") then
      var p :- PrefixText(prefix); Ok(p + Upper(ToRoman(pageIndex)))
    else if StrEq(style, "/r") then
      var p :- PrefixText(prefix); Ok(p + Lower(ToRoman(pageIndex)))
    else if StrEq(style, "/A") then
      var p :- PrefixText(prefix); Ok(p + Upper(ToAlpha(pageIndex)))
    else if StrEq(style, "/a") then
      var p :- PrefixText(prefix); Ok(p + Lower(ToAlpha(pageIndex)))
    else Ok(IntToString(index + 1))
  }

  /** The label of page `index` under the label dictionary `dict` whose
      range starts at page `startIndex`: `/S` (default "D"), `/P` (default
      empty) and `/St` (default 1). */
  function RenderLabel(dict: map<string, Obj>, index: int, startIndex: int): (r: Result<string>)
  {
    var start := DictGet(dict, "/St", Int(1));
    if !start.Int? then Err(TypeError)
    else RenderStyle(DictGet(dict, "/S", Text("D")), DictGet(dict, "/P", Text("")), index - startIndex + start.i, index)
  }

  /** `reader.get_object(v)` for a label value: an object resolved through
      the arena, an integer `n` taken as the reference `n 0 R`. */
  function LabelObject(arena: Arena, v: Obj): (r: Obj)
    ensures !v.Int? ==> r == GetObject(arena, v)
    ensures v.Int? ==> r == GetObject(arena, Indirect(Ref(v.i, 0)))
  {
    if v.Int? then GetObject(arena, Indirect(Ref(v.i, 0))) else GetObject(arena, v)
  }

  /** A byte string seen through subscripting: the bytes as integers. */
  function ByteKeys(bs: seq<byte>): (r: seq<Obj>)
    ensures |r| == |bs| && forall k :: 0 <= k < |bs| ==> r[k] == Int(bs[k])
  {
    seq(|bs|, k requires 0 <= k < |bs| => Int(bs[k]))
  }

  /** The loop of `index2label` over the resolved `/Nums` object, which
      the code uses through `len` and subscripts whatever it holds: an
      object without a length is TypeError; an empty one leaves the label
      plain; a non-empty dictionary has no key 0 (KeyError); a non-empty
      string yields a one-character string, which does not compare with
      the index (TypeError); a byte string is read as its bytes. */
  function LabelFromNums(arena: Arena, nums: Obj, index: int): (r: Result<string>)
    ensures PyLen(nums).None? ==> r == Err(TypeError)
    ensures PyLen(nums) == Some(0) ==> r == Ok(IntToString(index + 1))
    ensures IsDictLike(nums) && |EntriesOf(nums)| > 0 ==> r == Err(KeyError)
    ensures IsStr(nums) && |StrOf(nums)| > 0 ==> r == Err(TypeError)
    ensures nums.Bytes? && |nums.bytes| > 0 && nums.bytes[0] > index ==> r == Ok(IntToString(index + 1))
    ensures nums.Bytes? && |nums.bytes| == 1 && nums.bytes[0] <= index ==> r == Err(IndexError)
  {
    match PyLen(nums)
    case None => Err(TypeError)
    case Some(n) =>
      if n == 0 then Ok(IntToString(index + 1))
      else if IsDictLike(nums) then Err(KeyError)
      else if IsStr(nums) then Err(TypeError)
      else
        var items := if nums.Array? then nums.items else ByteKeys(nums.bytes);
        var found :- FindLabelPos(items, index, 0, None);
        match found
        case None => Ok(IntToString(index + 1))
        case Some(p) =>
          var dict := LabelObject(arena, items[p + 1]);
          if !IsDictLike(dict) then Err(AttributeError)
          else RenderLabel(EntriesOf(dict), index, items[p].i)
  }

  /** `index2label(reader, index)`: `root` is the document catalogue and
      `arena` the reader's object table. */
  function IndexToLabel(arena: Arena, root: map<string, Obj>, index: int): (r: Result<string>)
    ensures "/PageLabels" !in root ==> r == Ok(IntToString(index + 1))
    ensures "/PageLabels" in root && !IsDictLike(GetObject(arena, root["/PageLabels"])) ==> r == Err(TypeError)
    ensures ("/PageLabels" in root && IsDictLike(GetObject(arena, root["/PageLabels"]))
             && "/Nums" !in EntriesOf(GetObject(arena, root["/PageLabels"]))) ==> r == Err(KeyError)
  {
    if "/PageLabels" !in root then Ok(IntToString(index + 1))
    else
      var labels := GetObject(arena, root["/PageLabels"]);
      if !IsDictLike(labels) then Err(TypeError)
      else if "/Nums" !in EntriesOf(labels) then Err(KeyError)
      else
        LabelFromNums(arena, GetObject(arena, EntriesOf(labels)["/Nums"]), index)
  }

  lemma {:induction false} FindLabelInTree(nums: seq<Obj>, index: int, i: nat, found: Option<nat>)
    requires NumberTree(nums) && i % 2 == 0
    requires found.Some? ==> found.value < i
    ensures FindLabelPos(nums, index, i, found).Ok?
    decreases |nums| - i
  {
    if i < |nums| && nums[i].i <= index {
      FindLabelInTree(nums, index, i + 2, Some(i));
    }
  }

  /** Every key the loop passes, up to the position it returns, is at
      most `index`. */
  lemma {:induction false} FindLabelPosBelow(nums: seq<Obj>, index: int, i: nat, found: Option<nat>)
    requires found.Some? ==> found.value < i
    ensures var r := FindLabelPos(nums, index, i, found);
      r.Ok? && r.value != found ==> KeysBelow(nums, i, r.value.value + 2, index, false)
    decreases |nums| - i
  {
    if i < |nums| && nums[i].Int? && nums[i].i <= index && i + 1 < |nums| {
      FindLabelPosBelow(nums, index, i + 2, Some(i));
      var r := FindLabelPos(nums, index, i + 2, Some(i));
      assert FindLabelPos(nums, index, i, found) == r;
      if r.Ok? && r.value != Some(i) {
        KeysBelowStep(nums, i, r.value.value + 2, index);
      }
    }
  }

  /** In a sorted number tree the label comes from the entry with the
      greatest key not above `index` (the last such one when keys repeat);
      there is none exactly when the first key is above `index`. */
  lemma LabelFromGreatestKey(nums: seq<Obj>, index: int)
    requires NumberTree(nums) && Sorted(nums)
    ensures FindLabelPos(nums, index, 0, None).Ok?
    ensures FindLabelPos(nums, index, 0, None).value.None? <==> (|nums| == 0 || nums[0].i > index)
    ensures FindLabelPos(nums, index, 0, None).value.Some? ==>
      (var p := FindLabelPos(nums, index, 0, None).value.value;
       p % 2 == 0 && p + 1 < |nums| && nums[p].i <= index
       && (forall k :: 0 <= k < |nums| && k % 2 == 0 && nums[k].i <= index ==> nums[k].i <= nums[p].i)
       && (forall k :: p < k < |nums| && k % 2 == 0 ==> nums[k].i > index))
  {
    FindLabelInTree(nums, index, 0, None);
    FindLabelPosBelow(nums, index, 0, None);
    var r := FindLabelPos(nums, index, 0, None).value;
    if r.Some? {
      var p := r.value;
      forall k | 0 <= k < |nums| && k % 2 == 0 && nums[k].i <= index
        ensures nums[k].i <= nums[p].i
      {
      }
      forall k | p < k < |nums| && k % 2 == 0
        ensures nums[k].i > index
      {
        assert nums[p + 2].i <= nums[k].i;
      }
    }
  }

  /** `root` holds a page-label tree whose `/Nums` entry, once resolved,
      is `o`. */
  predicate LabelNumsObj(arena: Arena, root: map<string, Obj>, o: Obj)
  {
    "/PageLabels" in root
    && var labels := GetObject(arena, root["/PageLabels"]);
    IsDictLike(labels) && "/Nums" in EntriesOf(labels)
    && GetObject(arena, EntriesOf(labels)["/Nums"]) == o
  }

  /** `root` holds a page-label tree whose `/Nums` array, once resolved,
      is `nums`. */
  predicate LabelNums(arena: Arena, root: map<string, Obj>, nums: seq<Obj>)
  {
    LabelNumsObj(arena, root, Array(nums))
  }

  /** A `/Nums` entry that is no array: an empty dictionary, string or
      byte string leaves every page labelled `index + 1`; a non-empty
      dictionary is KeyError, a non-empty string TypeError, and an object
      without a length TypeError. */
  lemma LabelNumsNotArray(arena: Arena, root: map<string, Obj>, o: Obj, index: int)
    requires LabelNumsObj(arena, root, o) && !o.Array?
    ensures PyLen(o) == Some(0) ==> IndexToLabel(arena, root, index) == Ok(IntToString(index + 1))
    ensures PyLen(o).None? ==> IndexToLabel(arena, root, index) == Err(TypeError)
    ensures IsDictLike(o) && |EntriesOf(o)| > 0 ==> IndexToLabel(arena, root, index) == Err(KeyError)
    ensures IsStr(o) && |StrOf(o)| > 0 ==> IndexToLabel(arena, root, index) == Err(TypeError)
  {
  }

  /** A byte string as `/Nums` is read as its bytes: the first byte is the
      first key, and the byte after a key names the label dictionary by
      object number. */
  lemma LabelFromBytes(arena: Arena, root: map<string, Obj>, bs: seq<byte>, index: int)
    requires LabelNumsObj(arena, root, Bytes(bs)) && |bs| >= 2 && bs[0] <= index
    requires |bs| == 2 || bs[2] > index
    ensures var dict := GetObject(arena, Indirect(Ref(bs[1], 0)));
      IndexToLabel(arena, root, index)
      == if IsDictLike(dict) then RenderLabel(EntriesOf(dict), index, bs[0]) else Err(AttributeError)
  {
    var items := ByteKeys(bs);
    assert FindLabelPos(items, index, 2, Some(0)) == Ok(Some(0));
  }

  /** With a sorted tree, the page before every key is numbered plainly. */
  lemma LabelBeforeFirstKey(arena: Arena, root: map<string, Obj>, nums: seq<Obj>, index: int)
    requires LabelNums(arena, root, nums) && NumberTree(nums) && Sorted(nums)
    requires |nums| == 0 || nums[0].i > index
    ensures IndexToLabel(arena, root, index) == Ok(IntToString(index + 1))
  {
    LabelFromGreatestKey(nums, index);
  }

  /** With a sorted tree, the page is rendered from the value of the
      last key not above it, counted from that key. */
  lemma LabelFromEntry(arena: Arena, root: map<string, Obj>, nums: seq<Obj>, index: int, p: nat)
    requires LabelNums(arena, root, nums) && NumberTree(nums) && Sorted(nums)
    requires p < |nums| && p % 2 == 0 && nums[p].i <= index
    requires forall k :: p < k < |nums| && k % 2 == 0 ==> nums[k].i > index
    ensures p + 1 < |nums|
    ensures var dict := GetObject(arena, nums[p + 1]);
      IndexToLabel(arena, root, index)
      == if IsDictLike(dict) then RenderLabel(EntriesOf(dict), index, nums[p].i) else Err(AttributeError)
  {
    LabelFromGreatestKey(nums, index);
    var q := FindLabelPos(nums, index, 0, None).value.value;
    assert q == p;
  }

  /** A label dictionary without `/S` yields plain `index + 1`, whatever
      its prefix. */
  lemma MissingStyleIgnoresPrefix(dict: map<string, Obj>, index: int, startIndex: int)
    requires "/S" !in dict
    requires "/St" !in dict || dict["/St"].Int?
    ensures RenderLabel(dict, index, startIndex) == Ok(IntToString(index + 1))
  {
  }

  /** Within one decimal range, different pages get different labels. */
  lemma DecimalLabelsDistinct(dict: map<string, Obj>, a: int, b: int, startIndex: int)
    requires "/S" in dict && StrEq(dict["/S"], "/D")
    requires RenderLabel(dict, a, startIndex).Ok? && RenderLabel(dict, a, startIndex) == RenderLabel(dict, b, startIndex)
    ensures a == b
  {
    var st := DictGet(dict, "/St", Int(1)).i;
    var p := PrefixText(DictGet(dict, "/P", Text(""))).value;
    var sa := IntToString(a - startIndex + st);
    var sb := IntToString(b - startIndex + st);
    assert RenderLabel(dict, a, startIndex) == Ok(p + sa);
    assert RenderLabel(dict, b, startIndex) == Ok(p + sb);
    PrefixCancel(p, sa, sb);
    IntToStringInjective(a - startIndex + st, b - startIndex + st);
  }

  lemma PrefixCancel(p: string, x: string, y: string)
    requires p + x == p + y
    ensures x == y
  {
    assert x == (p + x)[|p|..] && y == (p + y)[|p|..];
  }

  lemma UpperOfUpper(s: string)
    requires forall k :: 0 <= k < |s| ==> IsUpper(s[k])
    ensures Upper(s) == s
  {
  }

  /** Within one upper-case Roman range, different pages numbered from 1
      on get different labels. */
  lemma RomanLabelsDistinct(dict: map<string, Obj>, a: int, b: int, startIndex: int)
    requires "/S" in dict && StrEq(dict["/S"], "/R")
    requires var st := DictGet(dict, "/St", Int(1)); st.Int? && a - startIndex + st.i >= 1 && b - startIndex + st.i >= 1
    requires RenderLabel(dict, a, startIndex).Ok? && RenderLabel(dict, a, startIndex) == RenderLabel(dict, b, startIndex)
    ensures a == b
  {
    var st := DictGet(dict, "/St", Int(1)).i;
    var p := PrefixText(DictGet(dict, "/P", Text(""))).value;
    var ra := ToRoman(a - startIndex + st);
    var rb := ToRoman(b - startIndex + st);
    RomanRendered(dict, a, startIndex);
    RomanRendered(dict, b, startIndex);
    PrefixCancel(p, ra, rb);
    RomanInjective(a - startIndex + st, b - startIndex + st);
  }

  /** Within one upper-case alphabetic range, different pages numbered
      from 1 on get different labels. */
  lemma AlphaLabelsDistinct(dict: map<string, Obj>, a: int, b: int, startIndex: int)
    requires "/S" in dict && StrEq(dict["/S"], "/A")
    requires var st := DictGet(dict, "/St", Int(1)); st.Int? && a - startIndex + st.i >= 1 && b - startIndex + st.i >= 1
    requires RenderLabel(dict, a, startIndex).Ok? && RenderLabel(dict, a, startIndex) == RenderLabel(dict, b, startIndex)
    ensures a == b
  {
    var st := DictGet(dict, "/St", Int(1)).i;
    var p := PrefixText(DictGet(dict, "/P", Text(""))).value;
    AlphaRendered(dict, a, startIndex);
    AlphaRendered(dict, b, startIndex);
    PrefixCancel(p, ToAlpha(a - startIndex + st), ToAlpha(b - startIndex + st));
    AlphaInjective(a - startIndex + st, b - startIndex + st);
  }

  lemma RomanRendered(dict: map<string, Obj>, a: int, startIndex: int)
    requires "/S" in dict && StrEq(dict["/S"], "/R") && DictGet(dict, "/St", Int(1)).Int?
    requires RenderLabel(dict, a, startIndex).Ok?
    ensures var st := DictGet(dict, "/St", Int(1)).i;
            RenderLabel(dict, a, startIndex)
              == Ok(PrefixText(DictGet(dict, "/P", Text(""))).value + ToRoman(a - startIndex + st))
  {
    UpperOfUpper(ToRoman(a - startIndex + DictGet(dict, "/St", Int(1)).i));
  }

  lemma AlphaRendered(dict: map<string, Obj>, a: int, startIndex: int)
    requires "/S" in dict && StrEq(dict["/S"], "/A") && DictGet(dict, "/St", Int(1)).Int?
    requires RenderLabel(dict, a, startIndex).Ok?
    ensures var st := DictGet(dict, "/St", Int(1)).i;
            RenderLabel(dict, a, startIndex)
              == Ok(PrefixText(DictGet(dict, "/P", Text(""))).value + ToAlpha(a - startIndex + st))
  {
    UpperOfUpper(ToAlpha(a - startIndex + DictGet(dict, "/St", Int(1)).i));
  }

  /** The catalogue of a document whose `/Nums` is `[0 {/S /r} 4 {/S /D}]`. */
  function ExampleRoot(): map<string, Obj>
  {
    map["/PageLabels" := Dict(map["/Nums" := Array([Int(0), Dict(map["/S" := Name("/r")]), Int(4), Dict(map["/S" := Name("/D")])])])]
  }

  lemma RomanOne()
    ensures ToRoman(1) == "I"
  {
    RomanSkipTo(1, 0, 12);
    RomanSkipTo(0, 12, 13);
  }

  /** Page 0 of the example is labelled "i". */
  lemma LabelExampleRoman()
    ensures IndexToLabel(map[], ExampleRoot(), 0) == Ok("i")
  {
    ExampleFindsFirst();
    RomanStyleOne();
    assert RenderLabel(map["/S" := Name("/r")], 0, 0) == RenderStyle(Name("/r"), Text(""), 1, 0);
  }

  lemma ExampleFindsFirst()
    ensures FindLabelPos([Int(0), Dict(map["/S" := Name("/r")]), Int(4), Dict(map["/S" := Name("/D")])], 0, 0, None) == Ok(Some(0))
  {
    var nums := [Int(0), Dict(map["/S" := Name("/r")]), Int(4), Dict(map["/S" := Name("/D")])];
    assert FindLabelPos(nums, 0, 2, Some(0)) == Ok(Some(0));
  }

  lemma RomanStyleOne()
    ensures RenderStyle(Name("/r"), Text(""), 1, 0) == Ok("i")
  {
    RomanOne();
    assert Lower("I") == "i";
    assert PrefixText(Text("")).Extract() == "";
    assert "" + Lower(ToRoman(1)) == "i";
  }

  /** Pages 4 and 5 of the example are labelled "1" and "2". */
  lemma LabelExampleDecimal()
    ensures IndexToLabel(map[], ExampleRoot(), 4) == Ok("1")
    ensures IndexToLabel(map[], ExampleRoot(), 5) == Ok("2")
  {
    var nums := [Int(0), Dict(map["/S" := Name("/r")]), Int(4), Dict(map["/S" := Name("/D")])];
    assert FindLabelPos(nums, 4, 0, None) == Ok(Some(2));
    assert FindLabelPos(nums, 5, 0, None) == Ok(Some(2));
    assert PrefixText(Text("")).Extract() == "";
    assert "" + IntToString(1) == "1" && "" + IntToString(2) == "2";
    assert RenderStyle(Name("/D"), Text(""), 1, 4) == Ok("1");
    assert RenderStyle(Name("/D"), Text(""), 2, 5) == Ok("2");
  }
}
