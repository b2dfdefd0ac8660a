/** The shake highlight effect: a per-frame loop that rotates the target
    through the angles 0, -15, 15, -5, 5, 0 degrees, ten sub-steps per
    segment, and stops at the first segment whose end angle is falsy.
    Angles are kept in integer tenths of a degree: every angle the loop
    computes is an exact multiple of half a degree. */
module ShakeEffect {
  import opened Results
  import opened Strings
  import opened Dom

  /** The key angles, in degrees. */
  const Sequence: seq<int> := [0, -15, 15, -5, 5, 0]

  /** Sub-steps per segment. */
  const Interval: nat := 10

  /** `seq[currentStep + 1]` at step `steps`: `None` past the end of the
      array, where JavaScript reads `undefined`. */
  function Next(steps: nat): (r: Option<int>)
    ensures r.Some? <==> steps / Interval + 1 < |Sequence|
  {
    var i := steps / Interval;
    if i + 1 < |Sequence| then Some(Sequence[i + 1]) else None
  }

  /** The stop test `!next`: `undefined` and `0` are both falsy. */
  predicate Stops(steps: nat) {
    Next(steps) == None || Next(steps) == Some(0)
  }

  /** The interpolated angle at step `steps`, in tenths of a degree. */
  function AngleTenths(steps: nat): int
    requires Next(steps).Some?
  {
    var i := steps / Interval;
    10 * Sequence[i] + (Sequence[i + 1] - Sequence[i]) * (steps % Interval)
  }

  /** The loop stops exactly from step 40 on: the final 0 of the sequence
      is falsy, so the 5 to 0 segment is never animated. */
  lemma StopsIff(steps: nat)
    ensures Stops(steps) <==> steps >= 40
  {
    var i := steps / Interval;
    if i == 0 { assert Next(steps) == Some(-15); }
    else if i == 1 { assert Next(steps) == Some(15); }
    else if i == 2 { assert Next(steps) == Some(-5); }
    else if i == 3 { assert Next(steps) == Some(5); }
    else if i == 4 { assert Next(steps) == Some(0); }
    else { assert Next(steps) == None; }
  }

  /** Every angle the loop writes lies within 15 degrees either side and
      is a whole multiple of half a degree. */
  lemma AngleBounds(steps: nat)
    requires steps < 40
    ensures !Stops(steps)
    ensures -150 <= AngleTenths(steps) <= 150
    ensures AngleTenths(steps) % 5 == 0
  {
    StopsIff(steps);
    var i := steps / Interval;
    var j := steps % Interval;
    assert 0 <= j < 10;
    if i == 0 { assert AngleTenths(steps) == -15 * j; }
    else if i == 1 { assert AngleTenths(steps) == -150 + 30 * j; }
    else if i == 2 { assert AngleTenths(steps) == 150 - 20 * j; }
    else { assert AngleTenths(steps) == -50 + 10 * j; }
  }

  /** The tenths model agrees with the loop's own formula
      `current + ((next - current) / itv) * (steps % itv)` evaluated
      exactly. */
  lemma AngleMatchesFormula(steps: nat)
    requires Next(steps).Some?
    ensures var i := steps / Interval;
      AngleTenths(steps) as real / 10.0
      == Sequence[i] as real
         + ((Sequence[i + 1] - Sequence[i]) as real / Interval as real) * (steps % Interval) as real
  {
  }

  /** The first and last rotations: 0 degrees, then 4 degrees at step 39. */
  lemma FirstAndLastAngles()
    ensures AngleTenths(0) == 0 && AngleTenths(39) == 40
  {
    StopsIff(0);
    StopsIff(39);
  }

  /** A whole number of tenths printed as a JavaScript number: the whole
      part, then a single decimal when there is one. */
  function Magnitude(tenths: nat): (r: string)
    ensures r != [] && IsDigit(r[0])
    ensures ('.' in r) <==> tenths % 10 != 0
  {
    var whole := NatToString(tenths / 10);
    var fraction := Fraction(tenths % 10);
    assert '.' !in whole by {
      forall k | 0 <= k < |whole| ensures whole[k] != '.' { assert IsDigit(whole[k]); }
    }
    whole + fraction
  }

  /** The decimal part of a number of tenths, empty when there is none. */
  function Fraction(d: nat): (r: string)
    requires d < 10
    ensures r == "" || r[0] == '.'
    ensures ('.' in r) <==> d != 0
  {
    if d == 0 then "" else "." + [DigitChar(d)]
  }

  /** An angle in tenths printed as JavaScript prints the number of
      degrees: a minus sign when negative, then its magnitude. */
  function Degrees(tenths: int): (r: string)
    ensures r != []
    ensures (r[0] == '-') <==> tenths < 0
    ensures ('.' in r) <==> tenths % 10 != 0
  {
    var magnitude: nat := if tenths < 0 then -tenths else tenths;
    assert (magnitude % 10 == 0) <==> (tenths % 10 == 0);
    (if tenths < 0 then "-" else "") + Magnitude(magnitude)
  }

  /** A run of digits followed by nothing or by a part that starts with a
      dot splits in one way only. */
  lemma DigitsThenFraction(m: nat, f: string, n: nat, g: string)
    requires f == "" || f[0] == '.'
    requires g == "" || g[0] == '.'
    requires NatToString(m) + f == NatToString(n) + g
    ensures m == n && f == g
  {
    var a, b := NatToString(m), NatToString(n);
    var s := a + f;
    DigitRunNoLonger(a, f, b, g);
    DigitRunNoLonger(b, g, a, f);
    assert a == s[..|a|] == b;
    assert f == s[|a|..] == g;
    if m != n { NatToStringInjective(m, n); }
  }

  /** Where a run of digits is followed by a dot or by nothing, another
      run of digits reading the same text cannot be shorter. */
  lemma DigitRunNoLonger(a: string, f: string, b: string, g: string)
    requires AllDigits(a) && AllDigits(b)
    requires f == "" || f[0] == '.'
    requires a + f == b + g
    ensures |b| <= |a|
  {
    var s := a + f;
    assert b == s[..|b|];
    assert forall i :: 0 <= i < |b| ==> IsDigit(s[i]);
    assert f == "" || !IsDigit(s[|a|]);
  }

  /** Different magnitudes are printed differently. */
  lemma MagnitudeInjective(m: nat, n: nat)
    requires Magnitude(m) == Magnitude(n)
    ensures m == n
  {
    DigitsThenFraction(m / 10, Fraction(m % 10), n / 10, Fraction(n % 10));
    if m % 10 != 0 {
      assert Fraction(m % 10)[1] == Fraction(n % 10)[1];
    }
  }

  /** Different angles are printed differently. */
  lemma DegreesInjective(s: int, t: int)
    requires Degrees(s) == Degrees(t)
    ensures s == t
  {
    var ms: nat := if s < 0 then -s else s;
    var mt: nat := if t < 0 then -t else t;
    var sign := if s < 0 then "-" else "";
    assert Degrees(s) == sign + Magnitude(ms);
    assert Degrees(t) == sign + Magnitude(mt);
    assert Magnitude(ms) == Degrees(s)[|sign|..] == Magnitude(mt);
    MagnitudeInjective(ms, mt);
  }

  /** Reads a number of tenths back from text of the form JavaScript prints:
      an optional minus sign, a non-empty run of digits and an optional dot
      followed by one digit. Any other text is `None`. */
  function ReadDegrees(s: string): Option<int> {
    if s != [] && s[0] == '-' then
      match ReadMagnitude(s[1..])
      case None => None
      case Some(m) => Some(-(m as int))
    else ReadMagnitude(s)
  }

  /** The unsigned part of `ReadDegrees`, in tenths. */
  function ReadMagnitude(s: string): Option<nat> {
    var i := IndexOf(s, '.');
    var whole := s[..i];
    if whole == [] || !AllDigits(whole) then None
    else if i == |s| then Some(10 * DigitsValue(whole))
    else if |s| == i + 2 && IsDigit(s[i + 1]) then Some(10 * DigitsValue(whole) + (s[i + 1] as int - '0' as int))
    else None
  }

  /** The printed magnitude reads back as the number of tenths. */
  lemma ReadMagnitudeOf(tenths: nat)
    ensures ReadMagnitude(Magnitude(tenths)) == Some(tenths)
  {
    var d := tenths % 10;
    if d == 0 {
      ReadWhole(tenths / 10);
      assert Magnitude(tenths) == NatToString(tenths / 10) + "";
    } else {
      ReadWithFraction(tenths / 10, d);
      assert Magnitude(tenths) == NatToString(tenths / 10) + ['.'] + [DigitChar(d)];
    }
  }

  /** A whole number reads back as that many tens of tenths. */
  lemma ReadWhole(n: nat)
    ensures ReadMagnitude(NatToString(n) + "") == Some(10 * n)
  {
    var s := NatToString(n);
    assert s + "" == s;
    NoDotInNumber(n);
    assert IndexOf(s, '.') == |s|;
    assert s[..|s|] == s;
    DigitsValueOfNatToString(n);
  }

  /** A whole number, a dot and one digit read back as a number of tenths. */
  lemma ReadWithFraction(n: nat, d: nat)
    requires 0 < d < 10
    ensures ReadMagnitude(NatToString(n) + ['.'] + [DigitChar(d)]) == Some(10 * n + d)
  {
    var whole := NatToString(n);
    var s := whole + ['.'] + [DigitChar(d)];
    NoDotInNumber(n);
    IndexOfPast(whole, '.', [DigitChar(d)]);
    assert s[..|whole|] == whole;
    assert s[|whole| + 1] == DigitChar(d);
    DigitsValueOfNatToString(n);
  }

  /** A rendered whole number holds no dot. */
  lemma NoDotInNumber(n: nat)
    ensures '.' !in NatToString(n)
  {
    var whole := NatToString(n);
    forall k | 0 <= k < |whole| ensures whole[k] != '.' { assert IsDigit(whole[k]); }
  }

  /** The printed angle reads back as the angle: the text of
      `rotate(${angle}deg)` denotes exactly the interpolated angle. */
  lemma ReadDegreesOf(tenths: int)
    ensures ReadDegrees(Degrees(tenths)) == Some(tenths)
  {
    var magnitude: nat := if tenths < 0 then -tenths else tenths;
    ReadMagnitudeOf(magnitude);
    var m := Magnitude(magnitude);
    if tenths < 0 {
      assert Degrees(tenths) == "-" + m;
      assert Degrees(tenths)[1..] == m;
    } else {
      assert Degrees(tenths) == m;
      assert IsDigit(m[0]);
    }
  }

  /** The transform written for an angle. */
  function RotateText(tenths: int): string {
    "rotate(" + Degrees(tenths) + "deg)"
  }

  const TransformKey := "transform"
  const TransitionKey := "transition"

  /** The target's inline style with both animated properties reset. */
  function Reset(style: map<string, string>): (r: map<string, string>)
    ensures r.Keys == style.Keys + {TransformKey, TransitionKey}
    ensures r[TransformKey] == "" && r[TransitionKey] == ""
    ensures forall k :: k in style && k != TransformKey && k != TransitionKey ==> r[k] == style[k]
  {
    style[TransformKey := ""][TransitionKey := ""]
  }

  /** The target's inline style while the angle `tenths` is shown. */
  function Rotated(style: map<string, string>, tenths: int): (r: map<string, string>)
    ensures r.Keys == style.Keys + {TransformKey, TransitionKey}
    ensures r[TransformKey] == RotateText(tenths) && r[TransitionKey] == "none"
    ensures forall k :: k in style && k != TransformKey && k != TransitionKey ==> r[k] == style[k]
  {
    style[TransformKey := RotateText(tenths)][TransitionKey := "none"]
  }

  /** Resetting after a rotation leaves what resetting alone leaves. */
  lemma ResetAfterRotated(style: map<string, string>, tenths: int)
    ensures Reset(Rotated(style, tenths)) == Reset(style)
  {
    var a, b := Reset(Rotated(style, tenths)), Reset(style);
    assert a.Keys == b.Keys;
    forall k | k in a ensures a[k] == b[k] {
    }
  }

  /** Appending the angle of the next step keeps the record of shown
      angles in step with the formula. */
  lemma ShownExtends(shown: seq<int>, steps: nat)
    requires steps < 40 && |shown| == steps
    requires forall k :: 0 <= k < steps ==> shown[k] == AngleTenths(k)
    ensures !Stops(steps)
    ensures forall k :: 0 <= k <= steps ==> (shown + [AngleTenths(steps)])[k] == AngleTenths(k)
  {
    StopsIff(steps);
  }

  /** One mounted shake effect: its target, the step counter, whether an
      animation frame is requested, how many times it has called
      `onRemove`, and (as a record for proofs) the angles shown so far. */
  class Shake {
    const target: Element?
    var steps: nat
    var framePending: bool
    var removeCalls: nat
    ghost var shown: seq<int>

    /** The step counter never passes 40 and only a present target gets a
        frame. */
    ghost predicate Valid()
      reads this
    {
      steps <= 40 && (framePending ==> target != null)
      && |shown| == steps
      && forall k :: 0 <= k < steps ==> shown[k] == AngleTenths(k)
    }

    /** Mounting: without a target `onRemove` is called at once and nothing
        is scheduled; otherwise the first frame is requested. */
    constructor (target: Element?)
      ensures Valid() && this.target == target && steps == 0 && shown == []
      ensures target == null ==> removeCalls == 1 && !framePending
      ensures target != null ==> removeCalls == 0 && framePending
    {
      this.target := target;
      steps := 0;
      shown := [];
      if target == null {
        removeCalls := 1;
        framePending := false;
      } else {
        removeCalls := 0;
        framePending := true;
      }
    }

    /** The requested frame runs. At a stopping step it resets the target's
        transform and transition and calls `onRemove`; otherwise it writes
        the interpolated rotation, advances the counter by one and requests
        the next frame. */
    method Frame()
      requires Valid() && framePending
      modifies this, target
      ensures Valid()
      ensures old(steps) == 40 ==> (target.style == Reset(old(target.style))
        && removeCalls == old(removeCalls) + 1 && !framePending
        && steps == old(steps) && shown == old(shown))
      ensures old(steps) < 40 ==> (target.style == Rotated(old(target.style), AngleTenths(old(steps)))
        && steps == old(steps) + 1 && framePending
        && removeCalls == old(removeCalls) && shown == old(shown) + [AngleTenths(old(steps))])
      ensures target.classes == old(target.classes) && target.children == old(target.children)
    {
      framePending := false;
      StopsIff(steps);
      if Stops(steps) {
        target.style := Reset(target.style);
        removeCalls := removeCalls + 1;
      } else {
        var angle := AngleTenths(steps);
        target.style := Rotated(target.style, angle);
        ShownExtends(shown, steps);
        shown := shown + [angle];
        steps := steps + 1;
        framePending := true;
      }
    }

    /** Teardown: the pending frame is cancelled and the target's transform
        and transition are reset. A mount without a target registered no
        teardown. */
    method Teardown()
      requires Valid()
      modifies this, target
      ensures Valid() && !framePending
      ensures target != null ==> (target.style == Reset(old(target.style))
        && target.classes == old(target.classes) && target.children == old(target.children))
      ensures steps == old(steps) && removeCalls == old(removeCalls) && shown == old(shown)
    {
      framePending := false;
      if target != null {
        target.style := Reset(target.style);
      }
    }

    /** Every frame runs in turn until the loop stops: from a fresh mount
        exactly 40 rotations are shown, the last at 4 degrees, the target's
        animated properties are reset and `onRemove` is called once. */
    method RunFrames()
      requires Valid() && framePending
      modifies this, target
      ensures Valid() && !framePending && steps == 40
      ensures removeCalls == old(removeCalls) + 1
      ensures target.style == Reset(old(target.style))
      ensures |shown| == 40 && shown[39] == 40
      ensures forall k :: 0 <= k < 40 ==> -150 <= shown[k] <= 150 && shown[k] % 5 == 0
      ensures target.classes == old(target.classes) && target.children == old(target.children)
    {
      ghost var style0 := target.style;
      while framePending
        invariant Valid() && target != null
        invariant removeCalls == old(removeCalls) + (if framePending then 0 else 1)
        invariant framePending ==> Reset(target.style) == Reset(style0)
        invariant !framePending ==> target.style == Reset(style0) && steps == 40
        invariant target.classes == old(target.classes) && target.children == old(target.children)
        decreases 40 - steps, framePending
      {
        ghost var before := target.style;
        Frame();
        if framePending {
          ResetAfterRotated(before, AngleTenths(steps - 1));
        }
      }
      forall k | 0 <= k < 40 ensures -150 <= shown[k] <= 150 && shown[k] % 5 == 0 {
        AngleBounds(k);
      }
      FirstAndLastAngles();
    }
  }
}
