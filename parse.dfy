/** parseToHex: recognise `rgb(d, d, d)`, then `hsl(d, d%, d%)`, and fall
    back to a hex string. The two regular expressions are written as item
    patterns (a literal character, a run of white space, a run of decimal
    digits, a run of '%') and recognised by a greedy matcher. */
module ColorParse {
  import opened ColorUtils
  import opened ColorTypes
  import opened HexCodec
  import opened ColorSpace

  /** The characters JavaScript's `\s` accepts. */
  predicate IsSpace(c: char) {
    || c == ' '
    || ('\t' <= c <= '\r')
    || c == '\U{00A0}' || c == '\U{1680}'
    || ('\U{2000}' <= c <= '\U{200A}')
    || c == '\U{2028}' || c == '\U{2029}' || c == '\U{202F}' || c == '\U{205F}'
    || c == '\U{3000}' || c == '\U{FEFF}'
  }

  predicate IsDecimalDigit(c: char) { '0' <= c <= '9' }

  /** One element of a pattern: a literal character, `\s*`, `(\d+)` or `%*`. */
  datatype Item = Lit(c: char) | Spaces | Digits | Percents

  predicate InClass(it: Item, c: char) {
    match it
    case Lit(d) => c == d
    case Spaces => IsSpace(c)
    case Digits => IsDecimalDigit(c)
    case Percents => c == '%'
  }

  /** The items that may match the empty string. */
  predicate Nullable(it: Item) { it.Spaces? || it.Percents? }

  /** The text an item matched: one literal character, or a run of its
      class (at least one character for digits). */
  predicate Fits(it: Item, piece: string) {
    match it
    case Lit(d) => piece == [d]
    case Digits => |piece| > 0 && forall i :: 0 <= i < |piece| ==> IsDecimalDigit(piece[i])
    case _ => forall i :: 0 <= i < |piece| ==> InClass(it, piece[i])
  }

  /** pieces is a split of a string matching p item by item. */
  predicate Matches(p: seq<Item>, pieces: seq<string>) {
    |pieces| == |p| && forall k :: 0 <= k < |p| ==> Fits(p[k], pieces[k])
  }

  function Concat(pieces: seq<string>): (s: string)
    ensures pieces != [] ==> s == pieces[0] + Concat(pieces[1..])
  {
    if pieces == [] then [] else pieces[0] + Concat(pieces[1..])
  }

  /** Length of the longest prefix of s in the item's class. */
  function Span(it: Item, s: string): (n: nat)
    ensures n <= |s|
    ensures forall i :: 0 <= i < n ==> InClass(it, s[i])
    ensures n < |s| ==> !InClass(it, s[n])
  {
    if |s| == 0 || !InClass(it, s[0]) then 0 else 1 + Span(it, s[1..])
  }

  /** How many characters the greedy matcher gives the item, if it matches. */
  function PieceLength(it: Item, s: string): (n: Option<nat>)
    ensures n.Some? ==> n.value <= |s| && Fits(it, s[..n.value])
  {
    match it
    case Lit(d) => if |s| > 0 && s[0] == d then Some(1) else None
    case Digits => var k := Span(it, s); if k == 0 then None else Some(k)
    case _ => Some(Span(it, s))
  }

  /** Anchored greedy match of the whole string against the pattern, giving
      the text each item matched. What it returns is always a split of s
      that fits the pattern item by item. */
  function MatchFrom(p: seq<Item>, s: string): (m: Option<seq<string>>)
    ensures m.Some? ==> Matches(p, m.value) && Concat(m.value) == s
    decreases |p|
  {
    if p == [] then
      if s == [] then Some([]) else None
    else
      match PieceLength(p[0], s)
      case None => None
      case Some(n) =>
        match MatchFrom(p[1..], s[n..])
        case None => None
        case Some(rest) =>
          MatchesCons(p, s[..n], rest);
          assert s == s[..n] + s[n..];
          Some([s[..n]] + rest)
  }

  /** A piece fitting the first item, then pieces matching the rest, match
      the whole pattern and concatenate to the piece then the rest's text. */
  lemma MatchesCons(p: seq<Item>, piece: string, rest: seq<string>)
    requires |p| > 0 && Fits(p[0], piece) && Matches(p[1..], rest)
    ensures Matches(p, [piece] + rest)
    ensures Concat([piece] + rest) == piece + Concat(rest)
  {
    var pieces := [piece] + rest;
    assert pieces[1..] == rest;
    forall k | 0 <= k < |p| ensures Fits(p[k], pieces[k]) {
      if k > 0 {
        assert p[k] == p[1..][k - 1] && pieces[k] == rest[k - 1];
      }
    }
  }

  /** The two items' classes share no character, decided on the items. */
  predicate Disjoint(a: Item, b: Item) {
    match (a, b)
    case (Lit(x), Lit(y)) => x != y
    case (Lit(x), _) => !InClass(b, x)
    case (_, Lit(y)) => !InClass(a, y)
    case _ => a != b
  }

  /** Disjoint items never both accept a character. */
  lemma DisjointSound(a: Item, b: Item, c: char)
    requires Disjoint(a, b)
    ensures !(InClass(a, c) && InClass(b, c))
  {
  }

  /** Whatever p[j..] matches cannot start with a character of the item's
      class: the first item from j on that must consume a character is
      reached only through items disjoint from it. */
  predicate FollowedApart(it: Item, p: seq<Item>, j: nat)
    decreases |p| - j
  {
    j < |p| && Disjoint(it, p[j]) && (Nullable(p[j]) ==> FollowedApart(it, p, j + 1))
  }

  /** From index k on, every run item is followed by something it cannot run
      into, so the greedy matcher never needs to give characters back. */
  predicate Guarded(p: seq<Item>, k: nat)
    decreases |p| - k
  {
    k >= |p| || ((!p[k].Lit? ==> FollowedApart(p[k], p, k + 1)) && Guarded(p, k + 1))
  }

  /** The text matching p[j..] does not start with a character of the
      item's class. */
  lemma {:induction false} HeadApart(it: Item, p: seq<Item>, j: nat, qs: seq<string>)
    requires FollowedApart(it, p, j) && Matches(p[j..], qs)
    ensures Concat(qs) == [] || !InClass(it, Concat(qs)[0])
    decreases |p| - j
  {
    assert p[j..][0] == p[j];
    if |qs[0]| > 0 {
      assert Concat(qs)[0] == qs[0][0];
      assert InClass(p[j], qs[0][0]);
      DisjointSound(it, p[j], qs[0][0]);
    } else {
      assert Nullable(p[j]);
      assert Concat(qs) == Concat(qs[1..]);
      assert Matches(p[j + 1..], qs[1..]) by {
        forall k | 0 <= k < |p| - j - 1 ensures Fits(p[j + 1..][k], qs[1..][k]) {
          assert p[j + 1..][k] == p[j..][k + 1];
        }
      }
      HeadApart(it, p, j + 1, qs[1..]);
    }
  }

  /** A run of the item's class followed by text that cannot continue it is
      exactly what Span measures. */
  lemma {:induction false} SpanOfRun(it: Item, a: string, t: string)
    requires forall i :: 0 <= i < |a| ==> InClass(it, a[i])
    requires t == [] || !InClass(it, t[0])
    ensures Span(it, a + t) == |a|
    decreases |a|
  {
    if |a| > 0 {
      assert (a + t)[0] == a[0] && InClass(it, a[0]);
      assert (a + t)[1..] == a[1..] + t;
      SpanOfRun(it, a[1..], t);
    } else {
      assert a + t == t;
      assert t != [] ==> t[0] == (a + t)[0];
    }
  }

  /** Completeness: for a pattern guarded from k on, every split that fits
      p[k..] is the one the greedy matcher finds. */
  lemma {:induction false} MatchFromComplete(p: seq<Item>, k: nat, pieces: seq<string>)
    requires k <= |p| && Guarded(p, k) && Matches(p[k..], pieces)
    ensures MatchFrom(p[k..], Concat(pieces)) == Some(pieces)
    decreases |p| - k
  {
    if k < |p| {
      var q := p[k..];
      assert q[0] == p[k] && q[1..] == p[k + 1..];
      var s := Concat(pieces);
      var head, t := pieces[0], Concat(pieces[1..]);
      assert s == head + t;
      assert Fits(p[k], head);
      assert Matches(p[k + 1..], pieces[1..]) by {
        forall i | 0 <= i < |p| - k - 1 ensures Fits(p[k + 1..][i], pieces[1..][i]) {
          assert p[k + 1..][i] == q[i + 1];
        }
      }
      if !p[k].Lit? {
        HeadApart(p[k], p, k + 1, pieces[1..]);
        SpanOfRun(p[k], head, t);
      }
      assert PieceLength(q[0], s) == Some(|head|);
      assert s[..|head|] == head && s[|head|..] == t;
      MatchFromComplete(p, k + 1, pieces[1..]);
      assert [head] + pieces[1..] == pieces;
    } else {
      assert pieces == [];
    }
  }

  /** A match of a pattern that starts with a literal starts with it. */
  lemma MatchFromHead(p: seq<Item>, s: string)
    requires |p| > 0 && p[0].Lit? && MatchFrom(p, s).Some?
    ensures |s| > 0 && s[0] == p[0].c
  {
  }

  /** parseInt(_, 10) on a string of decimal digits. */
  function DecimalValue(s: string): (v: nat)
    requires forall i :: 0 <= i < |s| ==> IsDecimalDigit(s[i])
  {
    if s == [] then 0
    else
      var last := s[|s| - 1];
      assert IsDecimalDigit(last);
      DecimalValue(s[..|s| - 1]) * 10 + (last as int - '0' as int)
  }

  /** /^rgb\(\s*(\d+)\s*,\s*(\d+)\s*,\s*(\d+)\s*\)$/ */
  const RgbPattern: seq<Item> :=
    [Lit('r'), Lit('g'), Lit('b'), Lit('('),
     Spaces, Digits, Spaces, Lit(','),
     Spaces, Digits, Spaces, Lit(','),
     Spaces, Digits, Spaces, Lit(')')]

  /** /^hsl\(\s*(\d+)\s*,\s*(\d+)%*\s*,\s*(\d+)%*\s*\)$/ */
  const HslPattern: seq<Item> :=
    [Lit('h'), Lit('s'), Lit('l'), Lit('('),
     Spaces, Digits, Spaces, Lit(','),
     Spaces, Digits, Percents, Spaces, Lit(','),
     Spaces, Digits, Percents, Spaces, Lit(')')]

  /** The rgb pattern never needs the matcher to backtrack. */
  lemma RgbPatternGuarded()
    ensures Guarded(RgbPattern, 0)
  {
    var p := RgbPattern;
    assert Guarded(p, 15);
    assert Guarded(p, 14);
    assert Guarded(p, 13);
    assert Guarded(p, 12);
    assert Guarded(p, 11);
    assert Guarded(p, 10);
    assert Guarded(p, 9);
    assert Guarded(p, 8);
    assert Guarded(p, 7);
    assert Guarded(p, 6);
    assert Guarded(p, 5);
    assert Guarded(p, 4);
    assert Guarded(p, 3);
    assert Guarded(p, 2);
    assert Guarded(p, 1);
    assert Guarded(p, 0);
  }

  /** The hsl pattern never needs the matcher to backtrack. */
  lemma HslPatternGuarded()
    ensures Guarded(HslPattern, 0)
  {
    var p := HslPattern;
    assert Guarded(p, 17);
    assert Guarded(p, 16);
    assert Guarded(p, 15);
    assert Guarded(p, 14);
    assert Guarded(p, 13);
    assert Guarded(p, 12);
    assert Guarded(p, 11);
    assert Guarded(p, 10);
    assert Guarded(p, 9);
    assert Guarded(p, 8);
    assert Guarded(p, 7);
    assert Guarded(p, 6);
    assert Guarded(p, 5);
    assert Guarded(p, 4);
    assert Guarded(p, 3);
    assert Guarded(p, 2);
    assert Guarded(p, 1);
    assert Guarded(p, 0);
  }

  /** The decimal value of the digits the item at k matched. */
  function Capture(p: seq<Item>, pieces: seq<string>, k: nat): nat
    requires Matches(p, pieces) && k < |p| && p[k] == Digits
  {
    assert Fits(p[k], pieces[k]);
    DecimalValue(pieces[k])
  }

  /** parseInt(_, 10) of the three groups of an rgb match. */
  function RgbCaptures(pieces: seq<string>): (nat, nat, nat)
    requires Matches(RgbPattern, pieces)
  {
    assert RgbPattern[5] == Digits && RgbPattern[9] == Digits && RgbPattern[13] == Digits;
    (Capture(RgbPattern, pieces, 5), Capture(RgbPattern, pieces, 9), Capture(RgbPattern, pieces, 13))
  }

  /** parseInt(_, 10) of the three groups of an hsl match. */
  function HslCaptures(pieces: seq<string>): (nat, nat, nat)
    requires Matches(HslPattern, pieces)
  {
    assert HslPattern[5] == Digits && HslPattern[9] == Digits && HslPattern[14] == Digits;
    (Capture(HslPattern, pieces, 5), Capture(HslPattern, pieces, 9), Capture(HslPattern, pieces, 14))
  }

  /** The captures of the rgb form, if the whole string has that form. */
  function MatchRgb(s: string): Option<(nat, nat, nat)>
  {
    match MatchFrom(RgbPattern, s)
    case None => None
    case Some(ps) => Some(RgbCaptures(ps))
  }

  /** The captures of the hsl form, if the whole string has that form. */
  function MatchHsl(s: string): Option<(nat, nat, nat)>
  {
    match MatchFrom(HslPattern, s)
    case None => None
    case Some(ps) => Some(HslCaptures(ps))
  }

  datatype ParseError = InvalidHexString

  /** JavaScript's `.length`: the number of UTF-16 code units, where a
      character above U+FFFF takes a surrogate pair. */
  function Utf16Length(s: string): (n: nat)
    ensures |s| <= n <= 2 * |s|
    ensures (forall i :: 0 <= i < |s| ==> s[i] as int <= 0xFFFF) ==> n == |s|
    ensures (forall i :: 0 <= i < |s| ==> s[i] as int > 0xFFFF) ==> n == 2 * |s|
  {
    if s == [] then 0
    else Utf16Length(s[..|s| - 1]) + (if s[|s| - 1] as int > 0xFFFF then 2 else 1)
  }

  /** parseToHex: the rgb form first, then the hsl form, then the input as a
      hex string, rejected only when it normalises to more than six UTF-16
      code units. */
  function ParseToHex(colorString: string): (r: Result<string, ParseError>)
  {
    match MatchRgb(colorString)
    case Some((r, g, b)) => Success(RgbToHex(r, g, b))
    case None =>
      match MatchHsl(colorString)
      case Some((h, s, l)) => Success(HslToHex(h, s, l))
      case None =>
        var value := NormalizeHex(colorString);
        if Utf16Length(value) > 6 then Failure(InvalidHexString) else Success(value)
  }

  /** Every string of the rgb form is converted with rgbToHex of its three
      decimal captures. */
  lemma ParseToHexRgb(pieces: seq<string>)
    requires Matches(RgbPattern, pieces)
    ensures var (r, g, b) := RgbCaptures(pieces);
      ParseToHex(Concat(pieces)) == Success(RgbToHex(r, g, b))
  {
    RgbPatternGuarded();
    assert RgbPattern[0..] == RgbPattern;
    MatchFromComplete(RgbPattern, 0, pieces);
  }

  /** Every string of the hsl form is converted with hslToHex of its three
      decimal captures. */
  lemma ParseToHexHsl(pieces: seq<string>)
    requires Matches(HslPattern, pieces)
    ensures var (h, s, l) := HslCaptures(pieces);
      ParseToHex(Concat(pieces)) == Success(HslToHex(h, s, l))
  {
    var s := Concat(pieces);
    HslPatternGuarded();
    assert HslPattern[0..] == HslPattern;
    MatchFromComplete(HslPattern, 0, pieces);
    assert s[0] == 'h';
    if MatchFrom(RgbPattern, s).Some? {
      MatchFromHead(RgbPattern, s);
    }
  }

  /** A string of neither form takes the hex branch: it is normalised, and
      rejected exactly when that leaves more than six UTF-16 code units. */
  lemma ParseToHexHexBranch(s: string)
    requires forall ps :: !(Matches(RgbPattern, ps) && Concat(ps) == s)
    requires forall ps :: !(Matches(HslPattern, ps) && Concat(ps) == s)
    ensures ParseToHex(s).Failure? <==> Utf16Length(NormalizeHex(s)) > 6
    ensures ParseToHex(s).Success? ==> ParseToHex(s).value == NormalizeHex(s)
  {
  }

  /** A string that starts with neither 'r' nor 'h' (a hex colour with or
      without '#', say) is of neither form, so it takes the hex branch. */
  lemma ParseToHexOtherLead(s: string)
    requires |s| == 0 || (s[0] != 'r' && s[0] != 'h')
    ensures ParseToHex(s).Failure? <==> Utf16Length(NormalizeHex(s)) > 6
    ensures ParseToHex(s).Success? ==> ParseToHex(s).value == NormalizeHex(s)
  {
    forall ps | Matches(RgbPattern, ps) && Concat(ps) == s
      ensures false
    {
      LeadOfMatch(RgbPattern, ps);
    }
    forall ps | Matches(HslPattern, ps) && Concat(ps) == s
      ensures false
    {
      LeadOfMatch(HslPattern, ps);
    }
    ParseToHexHexBranch(s);
  }

  /** The text of a split that fits a pattern led by a literal starts with
      that literal. */
  lemma LeadOfMatch(p: seq<Item>, ps: seq<string>)
    requires |p| > 0 && p[0].Lit? && Matches(p, ps)
    ensures |Concat(ps)| > 0 && Concat(ps)[0] == p[0].c
  {
    assert Fits(p[0], ps[0]);
  }

  /** The text of a split that fits a pattern led by two literals starts
      with those two characters. */
  lemma LeadPairOfMatch(p: seq<Item>, ps: seq<string>)
    requires |p| > 1 && p[0].Lit? && p[1].Lit? && Matches(p, ps)
    ensures |Concat(ps)| > 1 && Concat(ps)[0] == p[0].c && Concat(ps)[1] == p[1].c
  {
    assert Fits(p[0], ps[0]) && Fits(p[1], ps[1]);
    assert Concat(ps) == ps[0] + (ps[1] + Concat(ps[2..]));
  }

  /** Every string of the rgb form starts with "rg". */
  lemma RgbFormLead(ps: seq<string>)
    requires Matches(RgbPattern, ps)
    ensures |Concat(ps)| > 1 && Concat(ps)[0] == 'r' && Concat(ps)[1] == 'g'
  {
    LeadPairOfMatch(RgbPattern, ps);
  }

  /** Every string of the hsl form starts with "hs". */
  lemma HslFormLead(ps: seq<string>)
    requires Matches(HslPattern, ps)
    ensures |Concat(ps)| > 1 && Concat(ps)[0] == 'h' && Concat(ps)[1] == 's'
  {
    LeadPairOfMatch(HslPattern, ps);
  }

  /** An rgb string whose captures are channels in [0, 255] yields six
      upper-case hex digits that decode back to those captures. */
  lemma ParseToHexRgbDecodes(pieces: seq<string>)
    requires Matches(RgbPattern, pieces)
    requires var (r, g, b) := RgbCaptures(pieces); r < 256 && g < 256 && b < 256
    ensures var (r, g, b) := RgbCaptures(pieces);
      var hex := ParseToHex(Concat(pieces));
      && hex.Success? && |hex.value| == 6 && IsUpperHexString(hex.value)
      && IsHexColor(hex.value) && HexToRGB(hex.value) == Rgb(r, g, b)
  {
    var (red, green, blue) := RgbCaptures(pieces);
    ParseToHexRgb(pieces);
    EncodedColourDecodes(Rgb(red, green, blue));
  }
}
