/** Colours of the dot grid: `hexToRgb`, and the per-channel blend that `draw` uses to
    colour a dot by its distance from the pointer. */
module ColorModel {
  import opened JsNumbers

  datatype Rgb = Rgb(r: int, g: int, b: int)

  predicate IsChannel(v: int)
  {
    0 <= v <= 255
  }

  predicate IsRgb(c: Rgb)
  {
    IsChannel(c.r) && IsChannel(c.g) && IsChannel(c.b)
  }

  /** The class `[a-f\d]` under the `i` flag: an ASCII digit, or a letter a-f in either case. */
  predicate IsHexDigit(ch: char)
  {
    '0' <= ch <= '9' || 'a' <= ch <= 'f' || 'A' <= ch <= 'F'
  }

  predicate AllHex(s: string)
  {
    forall i :: 0 <= i < |s| ==> IsHexDigit(s[i])
  }

  function HexValue(ch: char): (v: nat)
    requires IsHexDigit(ch)
    ensures v < 16
  {
    if '0' <= ch <= '9' then ch as int - '0' as int
    else if 'a' <= ch <= 'f' then ch as int - 'a' as int + 10
    else ch as int - 'A' as int + 10
  }

  /** `parseInt` of a two-digit capture group, in base 16. */
  function PairValue(hi: char, lo: char): (v: int)
    requires IsHexDigit(hi) && IsHexDigit(lo)
    ensures IsChannel(v)
  {
    16 * HexValue(hi) + HexValue(lo)
  }

  /** Whether `hex` matches `^#?([a-f\d]{2})([a-f\d]{2})([a-f\d]{2})$` with the `i` flag. */
  predicate Matches(hex: string)
  {
    || (|hex| == 6 && AllHex(hex))
    || (|hex| == 7 && hex[0] == '#' && AllHex(hex[1..]))
  }

  /** `hexToRgb`: the three channels of a matching string; black for anything else. */
  function HexToRgb(hex: string): (c: Rgb)
    ensures IsRgb(c)
    ensures !Matches(hex) ==> c == Rgb(0, 0, 0)
  {
    if !Matches(hex) then Rgb(0, 0, 0)
    else
      var d := hex[|hex| - 6..];
      Rgb(PairValue(d[0], d[1]), PairValue(d[2], d[3]), PairValue(d[4], d[5]))
  }

  // ----- the inverse direction: channels written as six lower-case hex digits -----

  function HexChar(n: nat): (ch: char)
    requires n < 16
    ensures IsHexDigit(ch) && HexValue(ch) == n
  {
    if n < 10 then ('0' as int + n) as char else ('a' as int + n - 10) as char
  }

  function ChannelHex(v: int): (s: string)
    requires IsChannel(v)
    ensures |s| == 2 && AllHex(s)
  {
    [HexChar(v / 16), HexChar(v % 16)]
  }

  /** The colour written as `rrggbb`, lower case, without `#`. */
  function ToHex(c: Rgb): (s: string)
    requires IsRgb(c)
    ensures |s| == 6 && AllHex(s)
  {
    ChannelHex(c.r) + ChannelHex(c.g) + ChannelHex(c.b)
  }

  function LowerChar(ch: char): char
  {
    if 'A' <= ch <= 'Z' then (ch as int - 'A' as int + 'a' as int) as char else ch
  }

  function Lower(s: string): (t: string)
    ensures |t| == |s|
  {
    seq(|s|, i requires 0 <= i < |s| => LowerChar(s[i]))
  }

  lemma ChannelRoundTrip(v: int)
    requires IsChannel(v)
    ensures var s := ChannelHex(v); PairValue(s[0], s[1]) == v
  {
  }

  /** Every colour is read back from its hex form, with or without the leading `#`. */
  lemma HexRoundTrip(c: Rgb)
    requires IsRgb(c)
    ensures HexToRgb(ToHex(c)) == c
    ensures HexToRgb("#" + ToHex(c)) == c
  {
    var s := ToHex(c);
    assert Matches(s);
    assert ("#" + s)[1..] == s;
    assert ("#" + s)[|"#" + s| - 6..] == s;
    assert s[|s| - 6..] == s;
    ChannelRoundTrip(c.r);
    ChannelRoundTrip(c.g);
    ChannelRoundTrip(c.b);
  }

  lemma HexCharOfValue(ch: char)
    requires IsHexDigit(ch)
    ensures HexChar(HexValue(ch)) == LowerChar(ch)
  {
  }

  lemma PairSplit(hi: char, lo: char)
    requires IsHexDigit(hi) && IsHexDigit(lo)
    ensures PairValue(hi, lo) / 16 == HexValue(hi) && PairValue(hi, lo) % 16 == HexValue(lo)
  {
  }

  /** A pair of digits read as a channel is written back as the same digits, lower-cased. */
  lemma ChannelOfPair(hi: char, lo: char)
    requires IsHexDigit(hi) && IsHexDigit(lo)
    ensures ChannelHex(PairValue(hi, lo)) == [LowerChar(hi), LowerChar(lo)]
  {
    PairSplit(hi, lo);
    HexCharOfValue(hi);
    HexCharOfValue(lo);
  }

  /** The six digits of a matching string, and the colour read from them. */
  lemma MatchedDigits(hex: string)
    requires Matches(hex)
    ensures var d := hex[|hex| - 6..];
      && |d| == 6 && AllHex(d)
      && HexToRgb(hex) == Rgb(PairValue(d[0], d[1]), PairValue(d[2], d[3]), PairValue(d[4], d[5]))
  {
    if |hex| == 7 {
      assert hex[|hex| - 6..] == hex[1..];
    }
  }

  /** Six digits read as a colour are written back lower-cased. */
  lemma PrintPairs(d: string)
    requires |d| == 6 && AllHex(d)
    ensures ToHex(Rgb(PairValue(d[0], d[1]), PairValue(d[2], d[3]), PairValue(d[4], d[5]))) == Lower(d)
  {
    ChannelOfPair(d[0], d[1]);
    ChannelOfPair(d[2], d[3]);
    ChannelOfPair(d[4], d[5]);
    assert Lower(d) == [LowerChar(d[0]), LowerChar(d[1]), LowerChar(d[2]),
                        LowerChar(d[3]), LowerChar(d[4]), LowerChar(d[5])];
  }

  /** Reading is injective up to letter case: a matching string's six digits are recovered,
      lower-cased, from the colour it denotes. */
  lemma ParseThenPrint(hex: string)
    requires Matches(hex)
    ensures ToHex(HexToRgb(hex)) == Lower(hex[|hex| - 6..])
  {
    MatchedDigits(hex);
    PrintPairs(hex[|hex| - 6..]);
  }

  /** Lower-casing keeps hex digits hex digits, with the same value, and nothing else becomes one. */
  lemma LowerHexDigit(ch: char)
    ensures IsHexDigit(LowerChar(ch)) == IsHexDigit(ch)
    ensures IsHexDigit(ch) ==> HexValue(LowerChar(ch)) == HexValue(ch)
  {
  }

  /** Lower-casing keeps exactly the hex digits, so a string is all hex digits iff its lower case is. */
  lemma LowerAllHex(s: string)
    ensures AllHex(Lower(s)) == AllHex(s)
  {
    forall i | 0 <= i < |s|
      ensures IsHexDigit(Lower(s)[i]) == IsHexDigit(s[i])
    {
      LowerHexDigit(s[i]);
    }
  }

  /** Lower-casing commutes with taking a suffix. */
  lemma LowerSuffix(s: string, k: nat)
    requires k <= |s|
    ensures Lower(s)[k..] == Lower(s[k..])
  {
  }

  /** A pair of digits has the same value in lower case. */
  lemma PairLower(hi: char, lo: char)
    requires IsHexDigit(hi) && IsHexDigit(lo)
    ensures IsHexDigit(LowerChar(hi)) && IsHexDigit(LowerChar(lo))
    ensures PairValue(LowerChar(hi), LowerChar(lo)) == PairValue(hi, lo)
  {
    LowerHexDigit(hi);
    LowerHexDigit(lo);
  }

  /** The `i` flag: lower-casing the input changes neither whether it matches nor the colour. */
  lemma CaseInsensitive(hex: string)
    ensures Matches(Lower(hex)) == Matches(hex)
    ensures HexToRgb(Lower(hex)) == HexToRgb(hex)
  {
    var l := Lower(hex);
    LowerAllHex(hex);
    if |hex| >= 1 {
      LowerSuffix(hex, 1);
      LowerAllHex(hex[1..]);
    }
    if Matches(hex) {
      var d := hex[|hex| - 6..];
      MatchedDigits(hex);
      MatchedDigits(l);
      LowerSuffix(hex, |hex| - 6);
      PairLower(d[0], d[1]);
      PairLower(d[2], d[3]);
      PairLower(d[4], d[5]);
    }
  }

  /** The component's active colour, in either case and with or without `#`. */
  lemma ExampleActive()
    ensures HexToRgb("6600FF") == Rgb(102, 0, 255)
    ensures HexToRgb("#6600ff") == Rgb(102, 0, 255)
  {
    assert Matches("6600FF");
    assert Matches("#6600ff") && "#6600ff"[1..] == "6600ff";
  }

  /** The component's base colour. */
  lemma ExampleBase()
    ensures HexToRgb("#333333") == Rgb(51, 51, 51)
  {
    assert Matches("#333333") && "#333333"[1..] == "333333";
  }

  /** Strings that do not match give black: a non-hex digit, and a seventh digit. */
  lemma ExampleNoMatch()
    ensures HexToRgb("zzzzzz") == Rgb(0, 0, 0)
    ensures HexToRgb("#6600FF0") == Rgb(0, 0, 0)
  {
    assert !IsHexDigit('z');
  }

  // ----- blending by proximity -----

  /** `(base - active) * t` lies between 0 and `active - base` for t in [0, 1]. */
  lemma ScaledBetween(base: int, active: int, t: real)
    requires 0.0 <= t <= 1.0
    ensures base <= active ==> base as real <= base as real + (active - base) as real * t <= active as real
    ensures active <= base ==> active as real <= base as real + (active - base) as real * t <= base as real
  {
    var d := (active - base) as real;
    if d >= 0.0 {
      assert 0.0 <= d * t <= d * 1.0;
    } else {
      assert d * 1.0 <= d * t <= 0.0;
    }
  }

  /** The rounded interpolation stays between the two channels and meets them at t = 0 and t = 1. */
  lemma RoundedBetween(base: int, active: int, t: real)
    ensures var v := Round(base as real + (active - base) as real * t);
      && (0.0 <= t <= 1.0 ==> (base <= v <= active || active <= v <= base))
      && (t == 0.0 ==> v == base)
      && (t == 1.0 ==> v == active)
  {
    var x := base as real + (active - base) as real * t;
    RoundOfInt(base);
    RoundOfInt(active);
    if 0.0 <= t <= 1.0 {
      ScaledBetween(base, active, t);
      if base <= active { RoundBetween(base, x, active); } else { RoundBetween(active, x, base); }
    }
  }

  /** One channel of the blend: `Math.round(base + (active - base) * t)`. For t in [0, 1] it
      lies between the two channels; t = 0 gives `base` and t = 1 gives `active`. */
  function Lerp(base: int, active: int, t: real): (v: int)
    ensures 0.0 <= t <= 1.0 ==> (base <= v <= active || active <= v <= base)
    ensures t == 0.0 ==> v == base
    ensures t == 1.0 ==> v == active
  {
    RoundedBetween(base, active, t);
    Round(base as real + (active - base) as real * t)
  }

  function Blend(base: Rgb, active: Rgb, t: real): (c: Rgb)
    ensures 0.0 <= t <= 1.0 && IsRgb(base) && IsRgb(active) ==> IsRgb(c)
    ensures t == 0.0 ==> c == base
    ensures t == 1.0 ==> c == active
  {
    Rgb(Lerp(base.r, active.r, t), Lerp(base.g, active.g, t), Lerp(base.b, active.b, t))
  }

  /** A channel of `c` lies between the matching channels of `lo` and `hi`. */
  predicate Between(lo: Rgb, c: Rgb, hi: Rgb)
  {
    && (lo.r <= c.r <= hi.r || hi.r <= c.r <= lo.r)
    && (lo.g <= c.g <= hi.g || hi.g <= c.g <= lo.g)
    && (lo.b <= c.b <= hi.b || hi.b <= c.b <= lo.b)
  }

  /** The fill style `draw` gives a dot: the `baseColor` string itself outside the radius, a
      blended `rgb(...)` inside it, and `rgb(NaN,NaN,NaN)` (which a canvas ignores) when a
      radius of 0 makes `dist / proximity` a 0/0. */
  datatype Fill = BaseStyle(css: string) | Blended(color: Rgb) | NotANumber

  /** The colour of one dot. `dsq` is the squared distance from the pointer to the dot's base
      position, and `dist` its square root. */
  function DotFill(baseColor: string, baseRgb: Rgb, activeRgb: Rgb, proximity: real, dsq: real, dist: real): Fill
    requires 0.0 <= dist && dist * dist == dsq
  {
    if dsq <= proximity * proximity then
      if proximity == 0.0 then NotANumber else Blended(Blend(baseRgb, activeRgb, 1.0 - dist / proximity))
    else BaseStyle(baseColor)
  }

  /** A non-negative root is at most `p` exactly when its square is at most `p * p` (for p > 0). */
  lemma RootAtMost(dist: real, p: real)
    requires 0.0 <= dist && 0.0 < p
    ensures dist * dist <= p * p <==> dist <= p
  {
    if dist <= p {
      assert dist * dist <= dist * p <= p * p;
    } else {
      assert dist * dist > dist * p > p * p;
    }
  }

  /** Inside the radius the blend weight `1 - dist / proximity` lies in [0, 1]. */
  lemma WeightInRange(dist: real, p: real)
    requires 0.0 <= dist <= p && 0.0 < p
    ensures 0.0 <= 1.0 - dist / p <= 1.0
  {
    var q := dist / p;
    assert q * p == dist;
  }

  /** With a positive radius: within it (inclusive) the dot is blended between the two colours,
      the base colour at the edge and the active colour under the pointer; outside it the style
      is the `baseColor` string. */
  lemma DotFillRegimes(baseColor: string, baseRgb: Rgb, activeRgb: Rgb, proximity: real, dsq: real, dist: real)
    requires 0.0 <= dist && dist * dist == dsq && 0.0 < proximity
    ensures var f := DotFill(baseColor, baseRgb, activeRgb, proximity, dsq, dist);
      && (dsq <= proximity * proximity <==> f.Blended?)
      && (f.Blended? ==> Between(baseRgb, f.color, activeRgb))
      && (f.Blended? && IsRgb(baseRgb) && IsRgb(activeRgb) ==> IsRgb(f.color))
      && (dist == 0.0 ==> f == Blended(activeRgb))
      && (dist == proximity ==> f == Blended(baseRgb))
      && (dsq > proximity * proximity ==> f == BaseStyle(baseColor))
  {
    RootAtMost(dist, proximity);
    if dist <= proximity {
      WeightInRange(dist, proximity);
      if dist == proximity {
        var q := dist / proximity;
        assert q * proximity == 1.0 * proximity;
        assert q == 1.0;
      }
    }
  }

  /** With a radius of 0, only a pointer exactly on the dot reaches the blend, and it yields NaN. */
  lemma ZeroRadius(baseColor: string, baseRgb: Rgb, activeRgb: Rgb, dsq: real, dist: real)
    requires 0.0 <= dist && dist * dist == dsq
    ensures DotFill(baseColor, baseRgb, activeRgb, 0.0, dsq, dist) == if dsq == 0.0 then NotANumber else BaseStyle(baseColor)
  {
  }
}
