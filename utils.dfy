/** Helpers the converter imports from its utility module: max/min of three
    numbers and hex-string normalisation (strip one leading '#', fold to upper
    case). Also the Option/Result wrappers used across the model. */
module ColorUtils {

  datatype Option<+T> = None | Some(value: T)

  datatype Result<+T, +E> = Success(value: T) | Failure(error: E)

  /** Largest of three numbers. */
  function Max3(a: real, b: real, c: real): (m: real)
    ensures m >= a && m >= b && m >= c
    ensures m == a || m == b || m == c
  {
    if a >= b && a >= c then a else if b >= c then b else c
  }

  /** Smallest of three numbers. */
  function Min3(a: real, b: real, c: real): (m: real)
    ensures m <= a && m <= b && m <= c
    ensures m == a || m == b || m == c
  {
    if a <= b && a <= c then a else if b <= c then b else c
  }

  predicate IsLowerAscii(c: char) { 'a' <= c <= 'z' }

  /** ASCII upper-casing of one character; every other character is kept. */
  function Upper(c: char): (u: char)
    ensures IsLowerAscii(c) ==> u as int == c as int - 32
    ensures !IsLowerAscii(c) ==> u == c
    ensures !IsLowerAscii(u)
  {
    if IsLowerAscii(c) then (c as int - 32) as char else c
  }

  function UpperString(s: string): (u: string)
    ensures |u| == |s|
    ensures forall i :: 0 <= i < |s| ==> u[i] == Upper(s[i])
  {
    seq(|s|, i requires 0 <= i < |s| => Upper(s[i]))
  }

  /** The string without one leading '#', if it has one. */
  function StripHash(s: string): (t: string)
    ensures |s| > 0 && s[0] == '#' ==> t == s[1..]
    ensures !(|s| > 0 && s[0] == '#') ==> t == s
  {
    if |s| > 0 && s[0] == '#' then s[1..] else s
  }

  /** normalizeHex: strip one optional leading '#' and fold to upper case. */
  function NormalizeHex(s: string): (n: string)
  {
    UpperString(StripHash(s))
  }

  /** Normalisation drops at most the one '#' and upper-cases everything else. */
  lemma NormalizeHexShape(s: string)
    ensures |s| > 0 && s[0] == '#' ==> |NormalizeHex(s)| == |s| - 1
    ensures |s| > 0 && s[0] == '#' ==>
      forall i :: 1 <= i < |s| ==> NormalizeHex(s)[i - 1] == Upper(s[i])
    ensures !(|s| > 0 && s[0] == '#') ==> |NormalizeHex(s)| == |s|
    ensures !(|s| > 0 && s[0] == '#') ==>
      forall i :: 0 <= i < |s| ==> NormalizeHex(s)[i] == Upper(s[i])
  {
  }

  /** Upper-casing distributes over concatenation. */
  lemma UpperStringAppend(a: string, b: string)
    ensures UpperString(a + b) == UpperString(a) + UpperString(b)
  {
  }

  /** A string that is already normalised and does not start with '#' is a
      fixed point of normalisation. */
  lemma NormalizeHexIdempotent(s: string)
    requires !(|NormalizeHex(s)| > 0 && NormalizeHex(s)[0] == '#')
    ensures NormalizeHex(NormalizeHex(s)) == NormalizeHex(s)
  {
    var n := NormalizeHex(s);
    assert NormalizeHex(n) == UpperString(n);
    forall i | 0 <= i < |n| ensures UpperString(n)[i] == n[i] {
      assert !IsLowerAscii(n[i]);
    }
  }
}
