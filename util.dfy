/** The password generator, random ids, and the decision rules the prompts
    apply to what the user typed.

    Randomness is the `Entropy` supply: each `getrandom` call takes the bytes
    it asks for from the front of the supply, or fails when too few are left.
    A generated password is made of ASCII characters only, so it is modelled
    as a string and not as its bytes. */
module Util {
  import opened Common

  /** `u32::MAX`. */
  const U32Max: nat := 0xFFFF_FFFF

  /** `n as u32` for a `usize`: keep the low 32 bits. */
  function TruncU32(n: nat): (r: nat)
    ensures r <= U32Max && r <= n
    ensures n <= U32Max ==> r == n
  {
    n % 0x1_0000_0000
  }

  /** `u32::from_le_bytes`. */
  function FromLeBytes(b: seq<byte>): (x: nat)
    requires |b| == 4
    ensures x <= U32Max
  {
    b[0] as int + 0x100 * (b[1] as int + 0x100 * (b[2] as int + 0x100 * b[3] as int))
  }

  /** A base-256 digit below a higher part. */
  lemma ByteDigit(lo: byte, hi: nat)
    ensures (lo + 0x100 * hi) % 0x100 == lo && (lo + 0x100 * hi) / 0x100 == hi
  {
  }

  /** `from_le_bytes` is little-endian: byte `i` of the draw is base-256
      digit `i` of the value. */
  lemma FromLeBytesDigits(b: seq<byte>)
    requires |b| == 4
    ensures FromLeBytes(b) % 0x100 == b[0]
    ensures FromLeBytes(b) / 0x100 % 0x100 == b[1]
    ensures FromLeBytes(b) / 0x100 / 0x100 % 0x100 == b[2]
    ensures FromLeBytes(b) / 0x100 / 0x100 / 0x100 == b[3]
  {
    var hi2 := b[2] as int + 0x100 * b[3] as int;
    var hi1 := b[1] as int + 0x100 * hi2;
    ByteDigit(b[2], b[3]);
    ByteDigit(b[1], hi2);
    ByteDigit(b[0], hi1);
  }

  /** The rejection bound of `rand_index`: the largest multiple of `n32` that
      is at most `u32::MAX`. Draws at or above it are thrown away. */
  function Limit(n32: nat): nat
    requires 0 < n32
  {
    U32Max - U32Max % n32
  }

  /** The outcome of the rejection loop of `rand_index` run on the supply
      `pool`: the index it returns, or the failure of the first draw the
      supply cannot meet, together with what is left of the supply. */
  function Sample(n32: nat, pool: seq<byte>): (s: (Result<nat>, seq<byte>))
    requires 0 < n32 <= U32Max
    ensures s.0.Ok? ==> s.0.value < n32
    ensures s.0.Err? ==> s.0 == Err(RandomUnavailable) && |s.1| < 4
    ensures |s.1| <= |pool| && s.1 == pool[|pool| - |s.1|..]
    decreases |pool|
  {
    if |pool| < 4 then (Err(RandomUnavailable), pool)
    else
      var x := FromLeBytes(pool[..4]);
      if x < Limit(n32) then (Ok(x % n32), pool[4..]) else Sample(n32, pool[4..])
  }

  /** `rand_index`: a uniformly distributed index below `n`, by rejection
      sampling of 32-bit draws. `n` is cast to `u32` first; a length whose
      low 32 bits are all zero makes `u32::MAX % 0` panic. */
  method RandIndex(n: nat, rng: Entropy) returns (r: Result<nat>)
    modifies rng
    ensures n == 0 ==> r == Err(EmptyAlphabet) && rng.pool == old(rng.pool)
    ensures n > 0 && TruncU32(n) == 0 ==> r == Err(RemainderByZero) && rng.pool == old(rng.pool)
    ensures n > 0 && TruncU32(n) > 0 ==> (r, rng.pool) == Sample(TruncU32(n), old(rng.pool))
    ensures r.Ok? ==> r.value < n
  {
    if n == 0 {
      return Err(EmptyAlphabet);
    }
    var n32 := TruncU32(n);
    if n32 == 0 {
      return Err(RemainderByZero);
    }
    var limit := U32Max - U32Max % n32;
    while true
      invariant Sample(n32, rng.pool) == Sample(n32, old(rng.pool))
      decreases |rng.pool|
    {
      var b :- rng.GetRandom(4);
      var x := FromLeBytes(b);
      if x < limit {
        return Ok(x % n32);
      }
    }
  }

  /** How many of `0, 1, ..., m - 1` leave remainder `k` modulo `n`. */
  function CountResidue(m: nat, n: nat, k: nat): nat
    requires 0 < n
  {
    if m == 0 then 0 else CountResidue(m - 1, n, k) + (if (m - 1) % n == k then 1 else 0)
  }

  lemma {:induction false} MulAtLeast(d: nat, n: nat)
    requires 1 <= d
    ensures n <= d * n
  {
    if d > 1 {
      MulAtLeast(d - 1, n);
      MulSucc(d - 1, n);
    }
  }

  lemma MulSucc(p: nat, n: nat)
    ensures p * n + n == (p + 1) * n
  {
  }

  /** The remainder is the `r` of any `x == q * n + r` with `0 <= r < n`. */
  lemma ModUnique(x: int, n: int, q: int, r: int)
    requires 0 < n && 0 <= r < n && x == q * n + r
    ensures x % n == r && x / n == q
  {
    var d := q - x / n;
    assert d * n == q * n - (x / n) * n;
    if d > 0 {
      MulAtLeast(d, n);
    } else if d < 0 {
      MulAtLeast(-d, n);
    }
  }

  /** Within the block after `q` whole periods, residue `k` appears once. */
  lemma {:induction false} CountInBlock(q: nat, n: nat, k: nat, j: nat)
    requires k < n && j <= n
    requires CountResidue(q * n, n, k) == q
    ensures CountResidue(q * n + j, n, k) == q + (if k < j then 1 else 0)
  {
    if j > 0 {
      CountInBlock(q, n, k, j - 1);
      ModUnique(q * n + j - 1, n, q, j - 1);
    }
  }

  /** In `q` whole periods every residue appears exactly `q` times. */
  lemma {:induction false} CountFullBlocks(q: nat, n: nat, k: nat)
    requires k < n
    ensures CountResidue(q * n, n, k) == q
  {
    if q > 0 {
      var p := q - 1;
      CountFullBlocks(p, n, k);
      CountInBlock(p, n, k, n);
      MulSucc(p, n);
    }
  }

  /** `rand_index` has no modulo bias: the rejection bound is a multiple of
      `n32`, so each index below `n32` is the remainder of exactly
      `Limit(n32) / n32` accepted draws. */
  lemma NoModuloBias(n32: nat, k: nat)
    requires 0 < n32 <= U32Max && k < n32
    ensures Limit(n32) % n32 == 0
    ensures CountResidue(Limit(n32), n32, k) == Limit(n32) / n32
  {
    var q := U32Max / n32;
    assert Limit(n32) == q * n32 by {
      assert U32Max == q * n32 + U32Max % n32;
    }
    ModUnique(Limit(n32), n32, q, 0);
    CountFullBlocks(q, n32, k);
  }

  /** `pick_one`: a character of `alphabet` at an index from `rand_index`. */
  method PickOne(alphabet: string, rng: Entropy) returns (r: Result<char>)
    modifies rng
    ensures alphabet == [] ==> r == Err(EmptyAlphabet)
    ensures r.Ok? ==> r.value in alphabet
    ensures 0 < |alphabet| <= U32Max ==>
      var s := Sample(|alphabet|, old(rng.pool));
      rng.pool == s.1 && r == (if s.0.Ok? then Ok(alphabet[s.0.value]) else Err(s.0.error))
    ensures 0 < |alphabet| <= U32Max && r.Err? ==> r == Err(RandomUnavailable)
  {
    var i :- RandIndex(|alphabet|, rng);
    r := Ok(alphabet[i]);
  }

  /** The tail of `gen_password`: the drawn characters are copied into a
      buffer, shuffled in place, and collected back into a string. */
  method ShuffledCopy(out: string, rng: Entropy) returns (r: Result<string>)
    modifies rng
    ensures r.Ok? ==> |r.value| == |out| && multiset(r.value) == multiset(out)
    ensures |out| <= U32Max && r.Err? ==> r == Err(RandomUnavailable)
  {
    var a := new char[|out|](i requires 0 <= i < |out| => out[i]);
    assert a[..] == out;
    var _ :- Shuffle(a, rng);
    r := Ok(a[..]);
  }

  /** The four character classes. Upper case without `I` and `O`, lower case
      without `l`, digits without `0` and `1`. */
  const Uppers: string := "ABCDEFGHJKLMNPQRSTUVWXYZ"
  const Lowers: string := "abcdefghijkmnopqrstuvwxyz"
  const Digits: string := "23456789"
  const Specials: string := "!@#$%^&*()[]{}-_=+:;,.?/"

  /** Not one of the glyphs `I`, `l`, `1`, `0`, `O` that are easily
      mistaken for each other. */
  predicate Unambiguous(c: char) {
    c != 'I' && c != 'l' && c != '1' && c != '0' && c != 'O'
  }

  /** No class holds an easily mistaken glyph. */
  lemma NoAmbiguousGlyphs()
    ensures forall i :: 0 <= i < |Uppers| ==> Unambiguous(Uppers[i])
    ensures forall i :: 0 <= i < |Lowers| ==> Unambiguous(Lowers[i])
    ensures forall i :: 0 <= i < |Digits| ==> Unambiguous(Digits[i])
    ensures forall i :: 0 <= i < |Specials| ==> Unambiguous(Specials[i])
  {
  }

  /** The enabled classes, in the order upper, lower, digits, specials. */
  function Buckets(noUpper: bool, noLower: bool, noDigits: bool, noSpecials: bool): seq<string> {
    (if noUpper then [] else [Uppers])
    + (if noLower then [] else [Lowers])
    + (if noDigits then [] else [Digits])
    + (if noSpecials then [] else [Specials])
  }

  /** Every enabled class, and their union when one is enabled, is a short
      non-empty alphabet. */
  lemma BucketsSmall(noUpper: bool, noLower: bool, noDigits: bool, noSpecials: bool)
    ensures var buckets := Buckets(noUpper, noLower, noDigits, noSpecials);
      forall k :: 0 <= k < |buckets| ==> 0 < |buckets[k]| <= 25
    ensures |Buckets(noUpper, noLower, noDigits, noSpecials)| > 0 ==>
      0 < |Union(noUpper, noLower, noDigits, noSpecials)| <= 81
  {
  }

  /** All the characters of the enabled classes. */
  function Union(noUpper: bool, noLower: bool, noDigits: bool, noSpecials: bool): string {
    (if noUpper then [] else Uppers)
    + (if noLower then [] else Lowers)
    + (if noDigits then [] else Digits)
    + (if noSpecials then [] else Specials)
  }

  /** Every enabled class lies within the union. */
  lemma BucketsInUnion(noUpper: bool, noLower: bool, noDigits: bool, noSpecials: bool, k: nat, c: char)
    requires k < |Buckets(noUpper, noLower, noDigits, noSpecials)|
    requires c in Buckets(noUpper, noLower, noDigits, noSpecials)[k]
    ensures c in Union(noUpper, noLower, noDigits, noSpecials)
  {
    var b := Buckets(noUpper, noLower, noDigits, noSpecials)[k];
    assert b in Buckets(noUpper, noLower, noDigits, noSpecials);
  }

  /** The Fisher-Yates loop of `gen_password`: for `i` from the last position
      down to 1, swaps `a[i]` with `a[rand_index(i + 1)]`. It only swaps, so
      the characters stay the same; a failed draw stops it early. */
  method Shuffle(a: array<char>, rng: Entropy) returns (r: Result<()>)
    modifies a, rng
    ensures multiset(a[..]) == multiset(old(a[..]))
    ensures a.Length <= U32Max && r.Err? ==> r == Err(RandomUnavailable)
  {
    var i := a.Length;
    while i > 1
      invariant i <= a.Length
      invariant multiset(a[..]) == multiset(old(a[..]))
    {
      i := i - 1;
      var j :- RandIndex(i + 1, rng);
      a[i], a[j] := a[j], a[i];
    }
    r := Ok(());
  }

  /** `gen_password`: one character from each enabled class, the rest from
      their union, then shuffled. */
  method GenPassword(len: nat, noUpper: bool, noLower: bool, noDigits: bool, noSpecials: bool, rng: Entropy)
    returns (r: Result<string>)
    modifies rng
    ensures Buckets(noUpper, noLower, noDigits, noSpecials) == [] ==> r == Err(AllClassesDisabled)
    ensures var n := |Buckets(noUpper, noLower, noDigits, noSpecials)|;
      0 < n && len < n ==> r == Err(LengthTooShort(len, n))
    ensures r.Ok? ==> |r.value| == len
    ensures r.Ok? ==> forall i :: 0 <= i < len ==> r.value[i] in Union(noUpper, noLower, noDigits, noSpecials)
    ensures r.Ok? ==> var buckets := Buckets(noUpper, noLower, noDigits, noSpecials);
      forall k :: 0 <= k < |buckets| ==> exists i :: 0 <= i < len && r.value[i] in buckets[k]
    ensures var n := |Buckets(noUpper, noLower, noDigits, noSpecials)|;
      0 < n <= len <= U32Max && r.Err? ==> r == Err(RandomUnavailable)
  {
    var buckets := Buckets(noUpper, noLower, noDigits, noSpecials);
    if |buckets| == 0 {
      return Err(AllClassesDisabled);
    }
    if len < |buckets| {
      return Err(LengthTooShort(len, |buckets|));
    }
    var union := Union(noUpper, noLower, noDigits, noSpecials);
    BucketsSmall(noUpper, noLower, noDigits, noSpecials);
    var out: string := [];
    while |out| < |buckets|
      invariant |out| <= |buckets|
      invariant forall m :: 0 <= m < |out| ==> out[m] in buckets[m] && out[m] in union
    {
      var c :- PickOne(buckets[|out|], rng);
      BucketsInUnion(noUpper, noLower, noDigits, noSpecials, |out|, c);
      out := out + [c];
    }
    while |out| < len
      invariant |buckets| <= |out| <= len
      invariant forall m :: 0 <= m < |buckets| ==> out[m] in buckets[m]
      invariant forall m :: 0 <= m < |out| ==> out[m] in union
      decreases len - |out|
    {
      var c :- PickOne(union, rng);
      out := out + [c];
    }
    var pw :- ShuffledCopy(out, rng);
    forall i | 0 <= i < len ensures pw[i] in union {
      assert pw[i] in multiset(out);
    }
    forall k | 0 <= k < |buckets| ensures exists i :: 0 <= i < len && pw[i] in buckets[k] {
      assert out[k] in multiset(pw);
      var i :| 0 <= i < len && pw[i] == out[k];
    }
    r := Ok(pw);
  }

  /** A lower-case hex digit. */
  predicate IsHexDigit(c: char) {
    '0' <= c <= '9' || 'a' <= c <= 'f'
  }

  /** The lower-case hex digit of a value below 16. */
  function HexChar(v: nat): (c: char)
    requires v < 16
    ensures IsHexDigit(c)
  {
    if v < 10 then ('0' as int + v) as char else ('a' as int + v - 10) as char
  }

  /** The value of a lower-case hex digit. */
  function HexValue(c: char): (v: nat)
    ensures v < 16
  {
    if '0' <= c <= '9' then c as int - '0' as int
    else if 'a' <= c <= 'f' then c as int - 'a' as int + 10
    else 0
  }

  /** The two lower-case hex digits of a byte, as `format!("{:02x}")` writes
      them. */
  function HexByte(b: byte): (s: string)
    ensures |s| == 2 && IsHexDigit(s[0]) && IsHexDigit(s[1])
    ensures HexValue(s[0]) * 16 + HexValue(s[1]) == b
  {
    [HexChar(b / 16), HexChar(b % 16)]
  }

  /** The hex id of a byte string, two digits per byte. */
  function HexId(bytes: seq<byte>): (s: string)
    ensures |s| == 2 * |bytes|
    ensures forall i :: 0 <= i < |s| ==> IsHexDigit(s[i])
  {
    if bytes == [] then [] else HexByte(bytes[0]) + HexId(bytes[1..])
  }

  /** Reads a byte string back from its hex digits, two per byte. */
  function HexDecode(s: string): (bytes: seq<byte>)
    requires |s| % 2 == 0
    ensures |bytes| == |s| / 2
    decreases |s|
  {
    if s == [] then [] else [HexValue(s[0]) * 16 + HexValue(s[1])] + HexDecode(s[2..])
  }

  /** A hex id determines its bytes: distinct draws give distinct ids. */
  lemma {:induction false} HexRoundTrip(bytes: seq<byte>)
    ensures HexDecode(HexId(bytes)) == bytes
  {
    if bytes != [] {
      var s := HexId(bytes);
      var head := HexByte(bytes[0]);
      assert s == head + HexId(bytes[1..]);
      assert s[0] == head[0] && s[1] == head[1];
      assert s[2..] == HexId(bytes[1..]);
      HexRoundTrip(bytes[1..]);
    }
  }

  /** `new_id`: 16 random bytes as 32 lower-case hex digits. */
  method NewId(rng: Entropy) returns (r: Result<string>)
    modifies rng
    ensures 16 <= |old(rng.pool)| ==> r == Ok(HexId(old(rng.pool)[..16])) && rng.pool == old(rng.pool)[16..]
    ensures |old(rng.pool)| < 16 ==> r == Err(RandomUnavailable) && rng.pool == old(rng.pool)
    ensures r.Ok? ==> |r.value| == 32
  {
    var b :- rng.GetRandom(16);
    r := Ok(HexId(b));
  }

  /** The rule of `prompt_with_default`: an answer that is blank once trimmed
      keeps the current value; otherwise the trimmed answer replaces it. */
  function WithDefault(line: string, current: string): (r: string)
    ensures r == current || r == Trim(line)
    ensures Trim(line) == [] ==> r == current
    ensures Trim(line) != [] ==> r == Trim(line)
    ensures r != [] ==> r == current || (!IsWhitespace(r[0]) && !IsWhitespace(r[|r| - 1]))
  {
    var s := Trim(line);
    if s == [] then current else s
  }

  /** The rule of `prompt_password_optional`: an empty answer means "keep the
      current password". */
  function OptionalPassword(pw: string): (r: Option<string>)
    ensures r.None? <==> pw == []
    ensures r.Some? ==> r.value == pw
  {
    if pw == [] then None else Some(pw)
  }

  /** The rule of `confirm`: yes exactly when the line was read and is `y` or
      `Y` once trimmed; a failed read is no. */
  function Confirm(input: Option<string>): (yes: bool)
    ensures yes ==> input.Some?
  {
    match input
    case None => false
    case Some(line) => Trim(line) == "y" || Trim(line) == "Y"
  }

  /** Surrounding whitespace does not change an answer to `confirm`. */
  lemma ConfirmIgnoresPadding(pad: string, answer: string, pad2: string)
    requires forall i :: 0 <= i < |pad| ==> IsWhitespace(pad[i])
    requires forall i :: 0 <= i < |pad2| ==> IsWhitespace(pad2[i])
    requires answer == "y" || answer == "Y"
    ensures Confirm(Some(pad + answer + pad2))
  {
    TrimPadded(pad, answer, pad2);
  }

  /** `line` is `c` with nothing but whitespace around it. */
  predicate PaddedAround(line: string, pad: string, c: char, pad2: string) {
    line == pad + ([c] + pad2) && AllWhitespace(pad) && AllWhitespace(pad2)
  }

  /** Conversely, a yes is a single `y` or `Y` with nothing but whitespace
      around it. */
  lemma ConfirmNeedsYes(line: string)
    requires Confirm(Some(line))
    ensures exists pad, c, pad2 :: (c == 'y' || c == 'Y') && PaddedAround(line, pad, c, pad2)
  {
    var u := Trim(line);
    TrimDecomposes(line);
    assert u == [u[0]];
    assert PaddedAround(line, LeadingPad(line), u[0], TrailingPad(line));
  }
}
