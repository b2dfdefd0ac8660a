/** `extractBackgroundColor`: the accent colour the halo effect uses. The
    target's computed background colour is trimmed; a missing or empty one,
    one of five listed white or transparent spellings (compared lower-cased)
    and any white written as `rgb(...)`/`rgba(...)` that the effect's regular
    expression accepts all give the theme accent `var(--primary)`; any other
    colour is used as it is. */
module BackgroundColor {
  import opened Results
  import opened Strings

  const Primary := "var(--primary)"

  const TransparentPatterns: seq<string> :=
    ["transparent", "rgba(0, 0, 0, 0)", "rgb(255, 255, 255)", "rgba(255, 255, 255, 1)", "white"]

  // The regular expression
  //   ^rgba?\(\s*255\s*,\s*255\s*,\s*255\s*(,\s*(0|1|0?\.\d+))?\)$
  // is modelled by a parser into the parts that vary between the strings it
  // accepts, and by the printer of those parts; the two are proved inverse.

  /** The white space around one `255`. */
  datatype Pad = Pad(before: string, after: string)

  /** The optional alpha: white space after its comma, then its literal. */
  datatype AlphaPart = AlphaPart(space: string, literal: string)

  /** One string the regular expression accepts, by its varying parts. */
  datatype WhiteRgb = WhiteRgb(rgba: bool, red: Pad, green: Pad, blue: Pad, alpha: Option<AlphaPart>)

  /** `0`, `1`, or `0?\.\d+`. */
  predicate IsAlphaLiteral(a: string) {
    || a == "0" || a == "1"
    || (|a| >= 2 && a[0] == '.' && AllDigits(a[1..]))
    || (|a| >= 3 && a[..2] == "0." && AllDigits(a[2..]))
  }

  predicate ValidPad(p: Pad) {
    AllSpace(p.before) && AllSpace(p.after)
  }

  predicate ValidWhiteRgb(w: WhiteRgb) {
    && ValidPad(w.red) && ValidPad(w.green) && ValidPad(w.blue)
    && (w.alpha.Some? ==> AllSpace(w.alpha.value.space) && IsAlphaLiteral(w.alpha.value.literal))
  }

  function PadText(p: Pad, rest: string): string {
    p.before + ("255" + (p.after + rest))
  }

  function TailText(alpha: Option<AlphaPart>): string {
    match alpha
    case None => ")"
    case Some(a) => "," + (a.space + (a.literal + ")"))
  }

  function BlueText(blue: Pad, alpha: Option<AlphaPart>): string {
    PadText(blue, TailText(alpha))
  }

  function GreenText(green: Pad, blue: Pad, alpha: Option<AlphaPart>): string {
    PadText(green, "," + BlueText(blue, alpha))
  }

  function RedText(w: WhiteRgb): string {
    PadText(w.red, "," + GreenText(w.green, w.blue, w.alpha))
  }

  /** The string spelled by the parts. */
  function Print(w: WhiteRgb): string {
    "rgb" + ((if w.rgba then "a" else "") + ("(" + RedText(w)))
  }

  /** The rest of `s` after the literal `lit`, if `s` starts with it. */
  function Expect(lit: string, s: string): (r: Option<string>)
    ensures r.Some? <==> |lit| <= |s| && s[..|lit|] == lit
    ensures r.Some? ==> s == lit + r.value
  {
    if |lit| <= |s| && s[..|lit|] == lit then Some(s[|lit|..]) else None
  }

  /** The longest run of white space at the front of `s`, and the rest. */
  function Span(s: string): (r: (string, string))
    ensures AllSpace(r.0)
    ensures r.1 != [] ==> !IsSpace(r.1[0])
    ensures s == r.0 + r.1
    decreases |s|
  {
    if s != [] && IsSpace(s[0]) then
      var (w, rest) := Span(s[1..]);
      assert s == [s[0]] + s[1..];
      ([s[0]] + w, rest)
    else ([], s)
  }

  /** `\s*255\s*` at the front of `s`. */
  function ParsePad(s: string): Option<(Pad, string)> {
    var (before, t) := Span(s);
    var u :- Expect("255", t);
    var (after, rest) := Span(u);
    Some((Pad(before, after), rest))
  }

  /** `(,\s*(0|1|0?\.\d+))?\)` making up all of `s`. */
  function ParseTail(s: string): Option<Option<AlphaPart>> {
    if s == ")" then Some(None)
    else
      var t :- Expect(",", s);
      var a :- ParseAlpha(t);
      Some(Some(a))
  }

  /** `\s*(0|1|0?\.\d+)\)` making up all of `t`. */
  function ParseAlpha(t: string): (r: Option<AlphaPart>)
    ensures r.Some? ==> (AllSpace(r.value.space) && IsAlphaLiteral(r.value.literal)
      && t == r.value.space + (r.value.literal + ")"))
  {
    var (space, u) := Span(t);
    if |u| >= 1 && u[|u| - 1] == ')' && IsAlphaLiteral(u[..|u| - 1])
    then
      assert u == u[..|u| - 1] + ")";
      Some(AlphaPart(space, u[..|u| - 1]))
    else None
  }

  /** The third `255` and the tail. */
  function ParseBlue(s: string): Option<(Pad, Option<AlphaPart>)> {
    var p :- ParsePad(s);
    var alpha :- ParseTail(p.1);
    Some((p.0, alpha))
  }

  /** The second `255`, its comma and the rest. */
  function ParseGreen(s: string): Option<(Pad, Pad, Option<AlphaPart>)> {
    var p :- ParsePad(s);
    var t :- Expect(",", p.1);
    var b :- ParseBlue(t);
    Some((p.0, b.0, b.1))
  }

  /** Everything after the opening parenthesis. */
  function ParseRed(s: string): Option<(Pad, Pad, Pad, Option<AlphaPart>)> {
    var p :- ParsePad(s);
    var t :- Expect(",", p.1);
    var g :- ParseGreen(t);
    Some((p.0, g.0, g.1, g.2))
  }

  /** The regular expression applied to `s`: the parts when it matches. */
  function ParseWhiteRgb(s: string): Option<WhiteRgb> {
    var head :- ParseHead(s);
    var r :- ParseRed(head.1);
    Some(WhiteRgb(head.0, r.0, r.1, r.2, r.3))
  }

  /** `rgba?\(` at the front of `s`: whether the `a` is there, and the rest. */
  function ParseHead(s: string): (r: Option<(bool, string)>)
    ensures r.Some? ==> s == "rgb" + ((if r.value.0 then "a" else "") + ("(" + r.value.1))
  {
    var t :- Expect("rgb", s);
    var rgba := t != [] && t[0] == 'a';
    var t1 := if rgba then t[1..] else t;
    assert t == (if rgba then "a" else "") + t1;
    var t2 :- Expect("(", t1);
    Some((rgba, t2))
  }

  predicate MatchesWhiteRgb(s: string) {
    ParseWhiteRgb(s).Some?
  }

  lemma {:induction false} SpanOf(w: string, rest: string)
    requires AllSpace(w) && (rest != [] ==> !IsSpace(rest[0]))
    ensures Span(w + rest) == (w, rest)
    decreases |w|
  {
    if w == [] {
      assert w + rest == rest;
    } else {
      assert (w + rest)[1..] == w[1..] + rest;
      SpanOf(w[1..], rest);
      assert [w[0]] + w[1..] == w;
    }
  }

  lemma ExpectOf(lit: string, rest: string)
    ensures Expect(lit, lit + rest) == Some(rest)
  {
    assert (lit + rest)[..|lit|] == lit;
    assert (lit + rest)[|lit|..] == rest;
  }

  lemma ParsePadOf(p: Pad, rest: string)
    requires ValidPad(p) && rest != [] && !IsSpace(rest[0])
    ensures ParsePad(PadText(p, rest)) == Some((p, rest))
  {
    assert ("255" + (p.after + rest))[0] == '2';
    SpanOf(p.before, "255" + (p.after + rest));
    ExpectOf("255", p.after + rest);
    SpanOf(p.after, rest);
  }

  lemma ParsePadSound(s: string)
    requires ParsePad(s).Some?
    ensures var r := ParsePad(s).value;
      ValidPad(r.0) && s == PadText(r.0, r.1) && (r.1 != [] ==> !IsSpace(r.1[0]))
  {
    var (before, t) := Span(s);
    var u := Expect("255", t).value;
    var (after, rest) := Span(u);
    assert ParsePad(s).value == (Pad(before, after), rest);
  }

  lemma ParseTailOf(alpha: Option<AlphaPart>)
    requires alpha.Some? ==> AllSpace(alpha.value.space) && IsAlphaLiteral(alpha.value.literal)
    ensures ParseTail(TailText(alpha)) == Some(alpha)
  {
    if alpha.Some? {
      var a := alpha.value;
      var t := a.space + (a.literal + ")");
      assert TailText(alpha) == "," + t;
      assert TailText(alpha) != ")";
      ExpectOf(",", t);
      ParseAlphaOf(a);
    }
  }

  lemma ParseAlphaOf(a: AlphaPart)
    requires AllSpace(a.space) && IsAlphaLiteral(a.literal)
    ensures ParseAlpha(a.space + (a.literal + ")")) == Some(a)
  {
    var u := a.literal + ")";
    assert u[0] == a.literal[0];
    assert !IsSpace(u[0]);
    SpanOf(a.space, u);
    assert u[..|u| - 1] == a.literal;
  }

  lemma ParseTailSound(s: string)
    requires ParseTail(s).Some?
    ensures var alpha := ParseTail(s).value;
      (alpha.Some? ==> AllSpace(alpha.value.space) && IsAlphaLiteral(alpha.value.literal))
      && TailText(alpha) == s
  {
    if s != ")" {
      var t := Expect(",", s).value;
      var a := ParseAlpha(t).value;
      assert ParseTail(s) == Some(Some(a));
    }
  }

  lemma ParseBlueOf(blue: Pad, alpha: Option<AlphaPart>)
    requires ValidPad(blue)
    requires alpha.Some? ==> AllSpace(alpha.value.space) && IsAlphaLiteral(alpha.value.literal)
    ensures ParseBlue(BlueText(blue, alpha)) == Some((blue, alpha))
  {
    var tail := TailText(alpha);
    assert tail[0] == ')' || tail[0] == ',';
    ParsePadOf(blue, tail);
    ParseTailOf(alpha);
  }

  lemma ParseGreenOf(green: Pad, blue: Pad, alpha: Option<AlphaPart>)
    requires ValidPad(green) && ValidPad(blue)
    requires alpha.Some? ==> AllSpace(alpha.value.space) && IsAlphaLiteral(alpha.value.literal)
    ensures ParseGreen(GreenText(green, blue, alpha)) == Some((green, blue, alpha))
  {
    var rest := BlueText(blue, alpha);
    assert ("," + rest)[0] == ',';
    ParsePadOf(green, "," + rest);
    ExpectOf(",", rest);
    ParseBlueOf(blue, alpha);
  }

  lemma ParseRedOf(w: WhiteRgb)
    requires ValidWhiteRgb(w)
    ensures ParseRed(RedText(w)) == Some((w.red, w.green, w.blue, w.alpha))
  {
    var rest := GreenText(w.green, w.blue, w.alpha);
    assert ("," + rest)[0] == ',';
    ParsePadOf(w.red, "," + rest);
    ExpectOf(",", rest);
    ParseGreenOf(w.green, w.blue, w.alpha);
  }

  /** Every string spelled by valid parts matches, and parses back to them. */
  lemma ParsePrint(w: WhiteRgb)
    requires ValidWhiteRgb(w)
    ensures ParseWhiteRgb(Print(w)) == Some(w)
  {
    var body := "(" + RedText(w);
    var t := (if w.rgba then "a" else "") + body;
    ExpectOf("rgb", t);
    assert body[0] == '(';
    if w.rgba {
      assert t[0] == 'a' && t[1..] == body;
    } else {
      assert t == body;
    }
    ExpectOf("(", RedText(w));
    assert ParseHead(Print(w)) == Some((w.rgba, RedText(w)));
    ParseRedOf(w);
  }

  lemma ParseBlueSound(s: string)
    requires ParseBlue(s).Some?
    ensures var b := ParseBlue(s).value;
      ValidPad(b.0) && (b.1.Some? ==> AllSpace(b.1.value.space) && IsAlphaLiteral(b.1.value.literal))
      && BlueText(b.0, b.1) == s
  {
    ParsePadSound(s);
    ParseTailSound(ParsePad(s).value.1);
  }

  lemma ParseGreenSound(s: string)
    requires ParseGreen(s).Some?
    ensures var g := ParseGreen(s).value;
      ValidPad(g.0) && ValidPad(g.1) && (g.2.Some? ==> AllSpace(g.2.value.space) && IsAlphaLiteral(g.2.value.literal))
      && GreenText(g.0, g.1, g.2) == s
  {
    ParsePadSound(s);
    var p := ParsePad(s).value;
    var t := Expect(",", p.1).value;
    ParseBlueSound(t);
  }

  lemma ParseRedSound(s: string)
    requires ParseRed(s).Some?
    ensures var r := ParseRed(s).value;
      var w := WhiteRgb(false, r.0, r.1, r.2, r.3);
      ValidWhiteRgb(w) && RedText(w) == s
  {
    ParsePadSound(s);
    var p := ParsePad(s).value;
    var t := Expect(",", p.1).value;
    ParseGreenSound(t);
  }

  /** Every string that matches is spelled by the valid parts it parses to. */
  lemma PrintParse(s: string)
    requires MatchesWhiteRgb(s)
    ensures ValidWhiteRgb(ParseWhiteRgb(s).value) && Print(ParseWhiteRgb(s).value) == s
  {
    var head := ParseHead(s).value;
    var r := ParseRed(head.1).value;
    var w := WhiteRgb(head.0, r.0, r.1, r.2, r.3);
    assert ParseWhiteRgb(s) == Some(w);
    ParseRedSound(head.1);
    assert RedText(w) == RedText(WhiteRgb(false, r.0, r.1, r.2, r.3));
  }

  /** `isTransparentOrWhite`. */
  predicate IsTransparentOrWhite(color: string) {
    color == "" || Lower(color) in TransparentPatterns || MatchesWhiteRgb(color)
  }

  /** `extractBackgroundColor` of a computed background colour, `None` when
      the property is missing. */
  function ExtractBackgroundColor(background: Option<string>): (r: string)
    ensures background.None? || Trim(background.value) == "" ==> r == Primary
    ensures background.Some? && IsTransparentOrWhite(Trim(background.value)) ==> r == Primary
    ensures background.Some? && !IsTransparentOrWhite(Trim(background.value)) ==> r == Trim(background.value)
  {
    var raw := RawColor(background);
    if IsTransparentOrWhite(raw) then Primary else raw
  }

  /** `rawColor`: the trimmed colour, or the accent when that is missing or
      empty. */
  function RawColor(background: Option<string>): (r: string)
    ensures background.Some? && Trim(background.value) != "" ==> r == Trim(background.value)
    ensures background.None? || Trim(background.value) == "" ==> r == Primary
  {
    if background.Some? && Trim(background.value) != "" then Trim(background.value) else Primary
  }

  /** The fallback is kept by the effect's own test, and trimming leaves it
      as it is. */
  lemma PrimaryIsKept()
    ensures !IsTransparentOrWhite(Primary) && Trim(Primary) == Primary
  {
    PrimaryNotListed();
    PrimaryNotWhiteRgb();
    assert Primary[0] == 'v' && Primary[|Primary| - 1] == ')';
    TrimOfTrimmed(Primary);
  }

  /** No listed spelling has the fallback's length, whatever the case. */
  lemma PrimaryNotListed()
    ensures Lower(Primary) !in TransparentPatterns
  {
    var l := Lower(Primary);
    assert |l| == 14;
    assert |TransparentPatterns[0]| == 11 && |TransparentPatterns[1]| == 16;
    assert |TransparentPatterns[2]| == 18 && |TransparentPatterns[3]| == 22;
    assert |TransparentPatterns[4]| == 5;
  }

  /** The fallback does not start with `rgb`. */
  lemma PrimaryNotWhiteRgb()
    ensures !MatchesWhiteRgb(Primary)
  {
    assert Primary[0] == 'v';
    assert Expect("rgb", Primary).None?;
    assert ParseHead(Primary).None?;
  }

  /** The result is never white or transparent by the effect's own test, so
      it is never one of the listed spellings. */
  lemma ExtractNeverWhite(background: Option<string>)
    ensures !IsTransparentOrWhite(ExtractBackgroundColor(background))
    ensures Lower(ExtractBackgroundColor(background)) !in TransparentPatterns
  {
    var raw := RawColor(background);
    if IsTransparentOrWhite(raw) {
      PrimaryIsKept();
    }
  }


  /** Extracting from an extracted colour changes nothing. */
  lemma ExtractIdempotent(background: Option<string>)
    ensures ExtractBackgroundColor(Some(ExtractBackgroundColor(background))) == ExtractBackgroundColor(background)
  {
    var raw := RawColor(background);
    if background.Some? && Trim(background.value) != "" && !IsTransparentOrWhite(raw) {
      TrimIdempotent(background.value);
      ExtractOfKept(raw);
    } else {
      PrimaryIsKept();
      ExtractOfKept(Primary);
    }
  }

  /** A trimmed, non-empty colour that is not white is kept as it is. */
  lemma ExtractOfKept(c: string)
    requires Trim(c) == c && c != [] && !IsTransparentOrWhite(c)
    ensures ExtractBackgroundColor(Some(c)) == c
  {
    assert RawColor(Some(c)) == c;
  }

  /** A white-space-only colour falls back to the accent. */
  lemma BlankFallsBack(background: string)
    requires AllSpace(background)
    ensures ExtractBackgroundColor(Some(background)) == Primary
  {
    TrimEmptyIffAllSpace(background);
  }

  /** Every white `rgb`/`rgba` spelling the regular expression accepts, with
      any white space around it, gives the accent. */
  lemma WhiteRgbFallsBack(w: WhiteRgb, lead: string, trail: string)
    requires ValidWhiteRgb(w) && AllSpace(lead) && AllSpace(trail)
    ensures ExtractBackgroundColor(Some(lead + Print(w) + trail)) == Primary
  {
    PrintIsWhite(w);
    PrintEnds(w);
    TrimSurrounded(lead, Print(w), trail);
  }

  /** The regular expression is case-sensitive: nothing that does not start
      with a lower-case `r` matches it. */
  lemma MatchStartsLowerR(s: string)
    requires MatchesWhiteRgb(s)
    ensures s[0] == 'r'
  {
    assert Expect("rgb", s).Some?;
  }

  /** An upper-case white written without the browser's spacing is neither
      listed nor matched, so it is used as it is. */
  lemma UpperCaseWhiteKept()
    ensures ExtractBackgroundColor(Some("RGB(255,255,255)")) == "RGB(255,255,255)"
  {
    var c := "RGB(255,255,255)";
    assert !IsTransparentOrWhite(c) by {
      var l := Lower(c);
      assert |l| == 16 && l[3] == '(';
      assert "rgba(0, 0, 0, 0)"[3] == 'a';
      if MatchesWhiteRgb(c) {
        MatchStartsLowerR(c);
      }
    }
    TrimOfTrimmed(c);
    ExtractOfKept(c);
  }

  /** `rgba(255, 255, 255, 0.5)` by its parts. */
  const HalfWhite := WhiteRgb(true, Pad("", ""), Pad(" ", ""), Pad(" ", ""), Some(AlphaPart(" ", "0.5")))

  lemma HalfWhiteValid()
    ensures ValidWhiteRgb(HalfWhite)
  {
    assert IsAlphaLiteral("0.5") by { assert "0.5"[..2] == "0." && AllDigits("0.5"[2..]); }
  }

  lemma HalfWhitePrint()
    ensures Print(HalfWhite) == "rgba(255, 255, 255, 0.5)"
  {
    HalfWhiteRed();
    assert "rgb" + ("a" + ("(" + "255, 255, 255, 0.5)")) == "rgba(255, 255, 255, 0.5)";
  }

  lemma HalfWhiteRed()
    ensures RedText(HalfWhite) == "255, 255, 255, 0.5)"
  {
    HalfWhiteGreen();
    assert "" + ("255" + ("" + ("," + " 255, 255, 0.5)"))) == "255, 255, 255, 0.5)";
  }

  lemma HalfWhiteGreen()
    ensures GreenText(HalfWhite.green, HalfWhite.blue, HalfWhite.alpha) == " 255, 255, 0.5)"
  {
    HalfWhiteBlue();
    assert " " + ("255" + ("" + ("," + " 255, 0.5)"))) == " 255, 255, 0.5)";
  }

  lemma HalfWhiteBlue()
    ensures BlueText(HalfWhite.blue, HalfWhite.alpha) == " 255, 0.5)"
  {
    assert TailText(HalfWhite.alpha) == "," + (" " + ("0.5" + ")"));
    assert " " + ("255" + ("" + ", 0.5)")) == " 255, 0.5)";
  }

  /** A half-transparent white written as the browser does gives the accent. */
  lemma HalfTransparentWhiteFallsBack()
    ensures ExtractBackgroundColor(Some("rgba(255, 255, 255, 0.5)")) == Primary
  {
    HalfWhiteValid();
    HalfWhitePrint();
    PrintedWhiteRgbFallsBack(HalfWhite);
  }

  /** A spelling starts with `r` and ends with `)`. */
  lemma PrintEnds(w: WhiteRgb)
    ensures var p := Print(w); p != [] && p[0] == 'r' && p[|p| - 1] == ')'
  {
    var tail := TailText(w.alpha);
    assert tail[|tail| - 1] == ')';
    var blue := BlueText(w.blue, w.alpha);
    PadTextLast(w.blue, tail);
    var green := GreenText(w.green, w.blue, w.alpha);
    PadTextLast(w.green, "," + blue);
    var red := RedText(w);
    PadTextLast(w.red, "," + green);
    var p := Print(w);
    assert p == "rgb" + ((if w.rgba then "a" else "") + ("(" + red));
    assert p[|p| - 1] == red[|red| - 1];
  }

  /** Padding in front of a text ends where the text ends. */
  lemma PadTextLast(p: Pad, rest: string)
    requires rest != []
    ensures var t := PadText(p, rest); t != [] && t[|t| - 1] == rest[|rest| - 1]
  {
  }

  /** A white `rgb`/`rgba` spelling on its own gives `var(--primary)`. */
  lemma PrintedWhiteRgbFallsBack(w: WhiteRgb)
    requires ValidWhiteRgb(w)
    ensures ExtractBackgroundColor(Some(Print(w))) == Primary
  {
    PrintIsWhite(w);
  }

  /** A white spelling is already trimmed and is rejected by the effect's
      own test. */
  lemma PrintIsWhite(w: WhiteRgb)
    requires ValidWhiteRgb(w)
    ensures Trim(Print(w)) == Print(w) && IsTransparentOrWhite(Print(w))
  {
    ParsePrint(w);
    PrintEnds(w);
    TrimOfTrimmed(Print(w));
  }
}
