/** The fallback crypt providers of `pypdf/_crypt_providers`: the base
    class that stores a key and refuses to encrypt, the identity cipher, and
    the RC4 key schedule.  The fallback `CryptRC4` only schedules its key; it
    inherits `encrypt` and `decrypt` from the base class. */
module Crypt {
  import opened PyBase

  /** A provider object: its class and the key it holds (`None` until
      `set_key`); an RC4 provider also holds its state array `s`. */
  datatype Cipher =
    | Base(key: Option<seq<byte>>)
    | Identity(key: Option<seq<byte>>)
    | RC4(key: Option<seq<byte>>, s: seq<byte>)

  /** `CryptBase()`: no key yet. */
  function NewBase(): (c: Cipher)
    ensures c.Base? && c.key.None?
  {
    Base(None)
  }

  /** `CryptIdentity()`: the base constructor, so no key. */
  function NewIdentity(): (c: Cipher)
    ensures c.Identity? && c.key.None?
  {
    Identity(None)
  }

  /** `set_key(key)`: stores the key as given and changes nothing else. */
  function SetKey(c: Cipher, key: seq<byte>): (r: Cipher)
    ensures r.key == Some(key)
    ensures r.Base? == c.Base? && r.Identity? == c.Identity? && r.RC4? == c.RC4?
    ensures r.RC4? ==> r.s == c.s
  {
    c.(key := Some(key))
  }

  /** `encrypt(data)`: the identity cipher returns its input; the base class,
      and the fallback RC4 class that inherits from it, raise
      NotImplementedError. */
  function Encrypt(c: Cipher, data: seq<byte>): (r: Result<seq<byte>>)
    ensures c.Identity? <==> r.Ok?
    ensures r.Ok? ==> r.value == data
    ensures r.Err? ==> r.exc == NotImplementedError
  {
    if c.Identity? then Ok(data) else Err(NotImplementedError)
  }

  /** `decrypt(data)`: the same dispatch as `encrypt`, and the only cipher
      that runs is the identity, its own inverse, so decrypting is
      encrypting. */
  function Decrypt(c: Cipher, data: seq<byte>): (r: Result<seq<byte>>)
    ensures c.Identity? <==> r.Ok?
    ensures r.Ok? ==> r.value == data
    ensures r.Err? ==> r.exc == NotImplementedError
  {
    Encrypt(c, data)
  }

  /** The identity cipher undoes itself, with or without a key. */
  lemma IdentityRoundTrip(c: Cipher, x: seq<byte>)
    requires c.Identity?
    ensures Encrypt(c, x).Ok? && Decrypt(c, Encrypt(c, x).value) == Ok(x)
    ensures Encrypt(SetKey(c, x), x) == Ok(x)
  {
  }

  // ---------------------------------------------------------------------
  // RC4 key scheduling
  // ---------------------------------------------------------------------

  /** `bytearray(range(256))`, the state the key schedule starts from. */
  function Identity256(): (r: seq<byte>)
    ensures |r| == 256 && forall k :: 0 <= k < 256 ==> r[k] == k
  {
    seq(256, (k: int) requires 0 <= k < 256 => k as byte)
  }

  function Swap(s: seq<byte>, i: nat, j: nat): (r: seq<byte>)
    requires i < |s| && j < |s|
    ensures |r| == |s|
  {
    s[i := s[j]][j := s[i]]
  }

  /** A swap moves two entries and keeps the multiset of values. */
  lemma SwapPermutes(s: seq<byte>, i: nat, j: nat)
    requires i < |s| && j < |s|
    ensures multiset(Swap(s, i, j)) == multiset(s)
  {
    var t := s[i := s[j]];
    assert multiset(t) == multiset(s) - multiset{s[i]} + multiset{s[j]};
    assert t[j] == s[j] || i == j;
    assert multiset(t[j := s[i]]) == multiset(t) - multiset{t[j]} + multiset{s[i]};
  }

  /** One step of `j = (j + s[i] + key[i % len(key)]) % 256`. */
  function NextJ(key: seq<byte>, s: seq<byte>, i: nat, j: byte): (r: byte)
    requires |key| > 0 && i < |s|
    ensures r == (j + s[i] + key[i % |key|]) % 256
  {
    (j + s[i] + key[i % |key|]) % 256
  }

  /** The key schedule as a recursion over `i`: the reference the loop of
      `CryptRC4.__init__` is checked against. */
  function ScheduleFrom(key: seq<byte>, s: seq<byte>, i: nat, j: byte): (r: seq<byte>)
    requires |key| > 0 && |s| == 256 && i <= 256
    ensures |r| == 256
    decreases 256 - i
  {
    if i == 256 then s
    else
      var jn := NextJ(key, s, i, j);
      ScheduleFrom(key, Swap(s, i, jn), i + 1, jn)
  }

  function Schedule(key: seq<byte>): (r: seq<byte>)
    requires |key| > 0
    ensures |r| == 256
  {
    ScheduleFrom(key, Identity256(), 0, 0)
  }

  /** Every schedule is a permutation of 0..255: each step is a swap. */
  lemma {:induction false} ScheduleFromPermutes(key: seq<byte>, s: seq<byte>, i: nat, j: byte)
    requires |key| > 0 && |s| == 256 && i <= 256
    ensures multiset(ScheduleFrom(key, s, i, j)) == multiset(s)
    decreases 256 - i
  {
    if i < 256 {
      var jn := NextJ(key, s, i, j);
      SwapPermutes(s, i, jn);
      ScheduleFromPermutes(key, Swap(s, i, jn), i + 1, jn);
    }
  }

  /** A permutation of 0..255 holds every byte value exactly once. */
  lemma PermutationHoldsEveryByte(s: seq<byte>, v: byte)
    requires multiset(s) == multiset(Identity256())
    ensures multiset(s)[v] == 1
  {
    assert Identity256()[v] == v;
    assert forall k :: 0 <= k < 256 && k != v ==> Identity256()[k] != v;
    var left, right := Identity256()[..v], Identity256()[v + 1..];
    assert Identity256() == left + [v] + right;
    assert v !in left && v !in right;
  }

  /** `CryptRC4(key)`: the key is stored as given, then the 256 scheduling
      swaps run with `j` kept in 0..255.  An empty key fails at the first
      `i % len(key)` with ZeroDivisionError. */
  method NewRC4(key: seq<byte>) returns (r: Result<Cipher>)
    ensures |key| == 0 <==> r == Err(ZeroDivisionError)
    ensures r.Ok? ==> r.value.RC4? && r.value.key == Some(key)
    ensures r.Ok? ==> multiset(r.value.s) == multiset(Identity256())
    ensures r.Ok? ==> r.value.s == Schedule(key)
  {
    if |key| == 0 {
      return Err(ZeroDivisionError);
    }
    var s := Identity256();
    var j: byte := 0;
    var i := 0;
    while i < 256
      invariant 0 <= i <= 256 && |s| == 256
      invariant ScheduleFrom(key, s, i, j) == Schedule(key)
    {
      var jn := NextJ(key, s, i, j);
      s, j, i := Swap(s, i, jn), jn, i + 1;
    }
    assert s == Schedule(key);
    ScheduleFromPermutes(key, Identity256(), 0, 0);
    return Ok(RC4(Some(key), s));
  }
}
