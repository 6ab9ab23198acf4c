/** Vocabulary shared by every part of the vault: results and errors, bytes,
    the text rules the vault applies to user input and titles, and the
    operating system's random source. */
module Common {

  type byte = b: int | 0 <= b < 256

  datatype Option<+T> = None | Some(value: T)

  /** The distinct failure conditions of the vault engine. The source reports
      each as an error message; here each is a constructor. */
  datatype Error =
    | NoRow                                  // a single-row query found no row
    | BadNonceLength(len: nat)               // a stored nonce that is not 12 bytes
    | AuthenticationFailed                   // AEAD tag mismatch: wrong key or corruption
    | DecodeFailed                           // the plaintext is not the expected JSON value
    | RandomUnavailable                      // the random source could not supply the bytes
    | BadKdfParams                           // the KDF refuses its parameters
    | InvalidSalt                            // the header's salt is shorter than 8 bytes
    | DuplicateId                            // INSERT hit an existing primary key
    | CatalogEmpty
    | IndexOutOfRange(index: nat, len: nat)
    | PrefixTooShort
    | NoMatch
    | AmbiguousPrefix
    | ItemNotFound
    | ItemDisappeared
    | NoSourcePath
    | SameAsSource
    | DestinationExists
    | EmptyAlphabet
    | AllClassesDisabled
    | LengthTooShort(len: nat, classes: nat)
    | RemainderByZero                        // the panic of `x % 0` on a machine integer

  datatype Result<+T> = Ok(value: T) | Err(error: Error) {
    predicate IsFailure() { Err? }
    function PropagateFailure<U>(): Result<U> requires Err? { Err(error) }
    function Extract(): T requires Ok? { value }
  }

  /** The largest value of a 64-bit `usize`. */
  const UsizeMax: nat := 0xFFFF_FFFF_FFFF_FFFF

  predicate IsAsciiDigit(c: char) { '0' <= c <= '9' }

  predicate AllAsciiDigits(s: string) { forall i :: 0 <= i < |s| ==> IsAsciiDigit(s[i]) }

  function LowerChar(c: char): (d: char)
    ensures 'A' <= c <= 'Z' ==> 'a' <= d <= 'z' && d as int == c as int + 32
    ensures !('A' <= c <= 'Z') ==> d == c
  {
    if 'A' <= c <= 'Z' then (c as int + 32) as char else c
  }

  /** Case folding, restricted to ASCII letters. */
  function Lower(s: string): (r: string)
    ensures |r| == |s|
    ensures forall i :: 0 <= i < |s| ==> r[i] == LowerChar(s[i])
  {
    seq(|s|, i requires 0 <= i < |s| => LowerChar(s[i]))
  }

  lemma LowerIdempotent(s: string)
    ensures Lower(Lower(s)) == Lower(s)
  {
  }

  /** The characters with the Unicode White_Space property, which is what
      `str::trim` strips. */
  predicate IsWhitespace(c: char) {
    var u := c as int;
    || 0x09 <= u <= 0x0D || u == 0x20 || u == 0x85 || u == 0xA0 || u == 0x1680
    || 0x2000 <= u <= 0x200A || u == 0x2028 || u == 0x2029 || u == 0x202F
    || u == 0x205F || u == 0x3000
  }

  function TrimStart(s: string): (r: string)
    ensures |r| <= |s| && r == s[|s| - |r|..]
    ensures r == [] || !IsWhitespace(r[0])
    ensures forall i :: 0 <= i < |s| - |r| ==> IsWhitespace(s[i])
  {
    if |s| > 0 && IsWhitespace(s[0]) then TrimStart(s[1..]) else s
  }

  function TrimEnd(s: string): (r: string)
    ensures |r| <= |s| && r == s[..|r|]
    ensures r == [] || !IsWhitespace(r[|r| - 1])
    ensures forall i :: |r| <= i < |s| ==> IsWhitespace(s[i])
  {
    if |s| > 0 && IsWhitespace(s[|s| - 1]) then TrimEnd(s[..|s| - 1]) else s
  }

  /** `str::trim`: drop leading and trailing whitespace. */
  function Trim(s: string): (r: string)
    ensures r == [] || (!IsWhitespace(r[0]) && !IsWhitespace(r[|r| - 1]))
  {
    TrimEnd(TrimStart(s))
  }

  lemma {:induction false} TrimStartPadded(pad: string, t: string)
    requires forall i :: 0 <= i < |pad| ==> IsWhitespace(pad[i])
    requires t == [] || !IsWhitespace(t[0])
    ensures TrimStart(pad + t) == t
    decreases |pad|
  {
    if pad == [] {
      assert pad + t == t;
    } else {
      assert (pad + t)[1..] == pad[1..] + t;
      TrimStartPadded(pad[1..], t);
    }
  }

  lemma {:induction false} TrimEndPadded(t: string, pad: string)
    requires forall i :: 0 <= i < |pad| ==> IsWhitespace(pad[i])
    requires t == [] || !IsWhitespace(t[|t| - 1])
    ensures TrimEnd(t + pad) == t
    decreases |pad|
  {
    if pad == [] {
      assert t + pad == t;
    } else {
      assert (t + pad)[..|t + pad| - 1] == t + pad[..|pad| - 1];
      TrimEndPadded(t, pad[..|pad| - 1]);
    }
  }

  /** Trimming strips exactly the whitespace around a word. */
  lemma TrimPadded(pad: string, s: string, pad2: string)
    requires forall i :: 0 <= i < |pad| ==> IsWhitespace(pad[i])
    requires forall i :: 0 <= i < |pad2| ==> IsWhitespace(pad2[i])
    requires s != [] && !IsWhitespace(s[0]) && !IsWhitespace(s[|s| - 1])
    ensures Trim(pad + s + pad2) == s
  {
    assert pad + s + pad2 == pad + (s + pad2);
    TrimStartPadded(pad, s + pad2);
    TrimEndPadded(s, pad2);
  }

  /** Nothing but whitespace. */
  predicate AllWhitespace(s: string) {
    forall i :: 0 <= i < |s| ==> IsWhitespace(s[i])
  }

  /** The whitespace `Trim` removes from the front and from the back. */
  function LeadingPad(s: string): string {
    s[..|s| - |TrimStart(s)|]
  }

  function TrailingPad(s: string): string {
    TrimStart(s)[|Trim(s)|..]
  }

  lemma LeadingPadSplit(s: string)
    ensures s == LeadingPad(s) + TrimStart(s) && AllWhitespace(LeadingPad(s))
  {
    var t := TrimStart(s);
    assert s == s[..|s| - |t|] + s[|s| - |t|..];
  }

  lemma TrailingPadSplit(t: string)
    ensures t == TrimEnd(t) + t[|TrimEnd(t)|..] && AllWhitespace(t[|TrimEnd(t)|..])
  {
    var u := TrimEnd(t);
    var pad := t[|u|..];
    assert t == t[..|u|] + pad;
    forall i | 0 <= i < |pad| ensures IsWhitespace(pad[i]) {
      assert pad[i] == t[|u| + i];
    }
  }

  /** Every string is its trimmed core with whitespace around it. */
  lemma TrimDecomposes(s: string)
    ensures s == LeadingPad(s) + (Trim(s) + TrailingPad(s))
    ensures AllWhitespace(LeadingPad(s)) && AllWhitespace(TrailingPad(s))
  {
    var t := TrimStart(s);
    LeadingPadSplit(s);
    TrailingPadSplit(t);
    assert Trim(s) == TrimEnd(t) && TrailingPad(s) == t[|TrimEnd(t)|..];
  }

  /** The number of bytes of the UTF-8 encoding of `s`, which is what `str::len`
      counts. */
  function Utf8Len(s: string): (n: nat)
    ensures |s| <= n <= 4 * |s|
  {
    if s == [] then 0
    else
      var c := s[0] as int;
      (if c < 0x80 then 1 else if c < 0x800 then 2 else if c < 0x1_0000 then 3 else 4)
      + Utf8Len(s[1..])
  }

  /** `str::contains` for a string needle. */
  predicate Contains(haystack: string, needle: string)
    decreases |haystack|
  {
    needle <= haystack || (|haystack| > 0 && Contains(haystack[1..], needle))
  }

  /** `needle` occurs in `haystack` starting at position `i`. */
  predicate OccursAt(haystack: string, needle: string, i: int) {
    0 <= i <= |haystack| - |needle| && haystack[i..i + |needle|] == needle
  }

  /** `str::contains` finds the needle at some position of the haystack. */
  lemma {:induction false} ContainsAt(haystack: string, needle: string)
    ensures Contains(haystack, needle) <==> exists i :: OccursAt(haystack, needle, i)
    decreases |haystack|
  {
    if needle <= haystack {
      assert OccursAt(haystack, needle, 0);
    }
    if |haystack| > 0 {
      var tail := haystack[1..];
      ContainsAt(tail, needle);
      if Contains(tail, needle) {
        var i :| OccursAt(tail, needle, i);
        assert haystack[i + 1..i + 1 + |needle|] == tail[i..i + |needle|];
        assert OccursAt(haystack, needle, i + 1);
      }
      if exists i :: OccursAt(haystack, needle, i) {
        var i :| OccursAt(haystack, needle, i);
        if i > 0 {
          assert tail[i - 1..i - 1 + |needle|] == haystack[i..i + |needle|];
          assert OccursAt(tail, needle, i - 1);
        } else {
          assert needle <= haystack;
        }
      }
    } else if exists i :: OccursAt(haystack, needle, i) {
      var i :| OccursAt(haystack, needle, i);
      assert needle <= haystack;
    }
  }

  /** The operating system's random source (`getrandom`), seen as the finite
      supply of bytes it will still deliver. A request the supply cannot meet
      fails and takes nothing. */
  class Entropy {
    var pool: seq<byte>

    constructor (supply: seq<byte>)
      ensures pool == supply
    {
      pool := supply;
    }

    method GetRandom(n: nat) returns (r: Result<seq<byte>>)
      modifies this
      ensures n <= |old(pool)| ==> r == Ok(old(pool)[..n]) && pool == old(pool)[n..]
      ensures |old(pool)| < n ==> r == Err(RandomUnavailable) && pool == old(pool)
    {
      if n <= |pool| {
        r := Ok(pool[..n]);
        pool := pool[n..];
      } else {
        r := Err(RandomUnavailable);
      }
    }
  }
}
