/** `parse_range` in 64-bit arithmetic and `coalesce_ranges`. */
module ByteRange {
  import opened Wrappers
  import opened Text

  const MAX: nat := 0xFFFF_FFFF_FFFF_FFFF

  /** An inclusive byte interval. */
  datatype Range = Range(first: nat, last: nat)

  predicate ValidRange(r: Range) { r.first <= r.last <= MAX }

  function Min(a: nat, b: nat): nat { if a < b then a else b }

  function Max(a: nat, b: nat): nat { if a < b then b else a }

  // ---- Numbers ------------------------------------------------------------------------------

  predicate IsDigit(c: char) { '0' <= c <= '9' }

  predicate AllDigits(s: string) { forall c <- s :: IsDigit(c) }

  function DigitValue(c: char): nat
    requires IsDigit(c)
  {
    (c - '0') as nat
  }

  /** The number a digit string denotes, however long. */
  function Decimal(s: string): nat
    requires AllDigits(s)
  {
    if s == "" then 0 else 10 * Decimal(s[..|s| - 1]) + DigitValue(s[|s| - 1])
  }

  /** The denoted number, unbounded or capped at 64 bits. */
  function Number(s: string, capped: bool): Option<nat> {
    if s == "" || !AllDigits(s) then None
    else Some(if capped then Min(Decimal(s), MAX) else Decimal(s))
  }

  /** One step of the saturating loop does not overflow and keeps the value capped. */
  lemma SaturatingStep(exact: nat, d: nat)
    requires d < 10
    ensures var v := Min(exact, MAX);
            (if v > (MAX - d) / 10 then MAX else v * 10 + d) == Min(10 * exact + d, MAX) &&
            (v <= (MAX - d) / 10 ==> v * 10 + d <= MAX)
  {
    var q := (MAX - d) / 10;
    assert 10 * q <= MAX - d < 10 * (q + 1);
  }

  method ParseNumber(s: string) returns (r: Option<nat>)
    ensures r == Number(s, true)
  {
    if s == "" { return None; }
    var v := 0;
    for i := 0 to |s|
      invariant AllDigits(s[..i]) && v == Min(Decimal(s[..i]), MAX)
    {
      var c := s[i];
      if !IsDigit(c) { return None; }
      var d := DigitValue(c);
      assert s[..i + 1][..i] == s[..i];
      SaturatingStep(Decimal(s[..i]), d);
      v := if v > (MAX - d) / 10 then MAX else v * 10 + d;
    }
    assert s[..|s|] == s;
    return Some(v);
  }

  // ---- One range spec --------------------------------------------------------------------------

  datatype Spec = Malformed | Unsatisfiable | Wanted(range: Range)

  /** A trimmed, non-empty spec against a representation of `size` bytes. */
  function Evaluate(spec: string, size: nat, capped: bool): Spec {
    match Find(spec, "-")
    case None => Malformed
    case Some(dash) =>
      var a, b := spec[..dash], spec[dash + 1..];
      if a == "" then
        match Number(b, capped)
        case None => Malformed
        case Some(last) =>
          if last > 0 && size > 0 then Wanted(Range(size - Min(last, size), size - 1)) else Unsatisfiable
      else
        match Number(a, capped)
        case None => Malformed
        case Some(first) =>
          if b == "" then Clip(first, None, size)
          else
            match Number(b, capped)
            case None => Malformed
            case Some(last) => if last < first then Malformed else Clip(first, Some(last), size)
  }

  /** The part of `first-last`, or of `first-`, inside the representation. */
  function Clip(first: nat, last: Option<nat>, size: nat): Spec {
    if first >= size then Unsatisfiable
    else Wanted(Range(first, if last.Some? then Min(last.value, size - 1) else size - 1))
  }

  /** `first-last` with both numbers at or beyond the 64-bit maximum and in the wrong order: saturation
      makes the two ends equal, so the code does not see that the spec is malformed. */
  predicate HiddenInversion(spec: string) {
    match Find(spec, "-")
    case None => false
    case Some(dash) =>
      var a, b := spec[..dash], spec[dash + 1..];
      Number(a, false).Some? && Number(b, false).Some? &&
      MAX <= Number(b, false).value < Number(a, false).value
  }

  /** Saturating arithmetic gives the unbounded answer for a spec exactly when it hides no inversion. */
  lemma SaturationIsExact(spec: string, size: nat)
    requires size <= MAX
    ensures Evaluate(spec, size, true) == Evaluate(spec, size, false) <==> !HiddenInversion(spec)
    ensures HiddenInversion(spec) ==>
              Evaluate(spec, size, true) == Unsatisfiable && Evaluate(spec, size, false) == Malformed
    ensures Evaluate(spec, size, true).Wanted? ==>
              var r := Evaluate(spec, size, true).range; r.first <= r.last < size
  {
  }

  method EvaluateSpec(spec: string, size: nat) returns (r: Spec)
    requires size <= MAX
    ensures r == Evaluate(spec, size, true)
  {
    var dash := Find(spec, "-");
    if dash.None? { return Malformed; }
    var a, b := spec[..dash.value], spec[dash.value + 1..];
    if a == "" {
      var last := ParseNumber(b);
      if last.None? { return Malformed; }
      if last.value > 0 && size > 0 { return Wanted(Range(size - Min(last.value, size), size - 1)); }
      return Unsatisfiable;
    }
    var first := ParseNumber(a);
    if first.None? { return Malformed; }
    var last := MAX;
    if b != "" {
      var n := ParseNumber(b);
      if n.None? || n.value < first.value { return Malformed; }
      last := n.value;
    }
    if first.value < size { return Wanted(Range(first.value, Min(last, size - 1))); }
    return Unsatisfiable;
  }

  // ---- What specs mean, in numbers --------------------------------------------------------------

  predicate IsNumber(s: string) { s != "" && AllDigits(s) }

  lemma DashIsFirst(a: string, b: string)
    requires AllDigits(a)
    ensures Find(a + "-" + b, "-") == Some(|a|) && (a + "-" + b)[..|a|] == a && (a + "-" + b)[|a| + 1..] == b
  {
    hide Find;
    assert a + "-" + b == a + ("-" + b);
    FindAfter(a, "-", b);
  }

  /** `-n`: the last `n` bytes, or all of them when there are fewer. */
  lemma SuffixMeans(n: string, size: nat)
    requires IsNumber(n) && size <= 18446744073709551615
    ensures var e := Evaluate("-" + n, size, true);
            if Decimal(n) == 0 || size == 0 then e == Unsatisfiable
            else
              && e.Wanted? && e.range.last == size - 1
              && e.range.last - e.range.first + 1 == (if Decimal(n) <= size then Decimal(n) else size)
  {
    assert "" + "-" + n == "-" + n;
    DashIsFirst("", n);
    hide Find;
  }

  /** `a-`: everything from `a` on. */
  lemma OpenMeans(a: string, size: nat)
    requires IsNumber(a) && size <= 18446744073709551615
    ensures Evaluate(a + "-", size, true) ==
            if Decimal(a) >= size then Unsatisfiable else Wanted(Range(Decimal(a), size - 1))
  {
    assert a + "-" + "" == a + "-";
    DashIsFirst(a, "");
    hide Find;
  }

  /** `a-b`: from `a` to `b`, or to the last byte when there are fewer; malformed when `b` is before `a`, as
      far as 64 bits tell. */
  lemma ClosedMeans(a: string, b: string, size: nat)
    requires IsNumber(a) && IsNumber(b) && size <= 18446744073709551615
    ensures Evaluate(a + "-" + b, size, true) ==
            if Decimal(b) < Decimal(a) && Decimal(b) < 18446744073709551615 then Malformed
            else if Decimal(a) >= size then Unsatisfiable
            else Wanted(Range(Decimal(a), if Decimal(b) < size then Decimal(b) else size - 1))
  {
    DashIsFirst(a, b);
    hide Find;
  }

  /** `a-b`, `a-` or `-b`. */
  predicate HasForm(spec: string, a: string, b: string) {
    spec == a + "-" + b && ((IsNumber(a) && (b == "" || IsNumber(b))) || (a == "" && IsNumber(b)))
  }

  /** Nothing else is a spec. */
  lemma OnlyTheseForms(spec: string, size: nat)
    requires Evaluate(spec, size, true) != Malformed
    ensures exists a: string, b: string :: HasForm(spec, a, b)
  {
    var dash := Find(spec, "-").value;
    var a, b := spec[..dash], spec[dash + 1..];
    assert spec == a + "-" + b by { assert spec[dash..dash + 1] == "-"; }
    assert HasForm(spec, a, b);
  }

  // ---- The header --------------------------------------------------------------------------------

  datatype RangeSet = Ignored | Satisfiable(ranges: seq<Range>) | NoneSatisfiable

  /** The comma-separated pieces of a set. */
  function SplitCommas(set_: string): seq<string>
    decreases |set_|
  {
    match Find(set_, ",")
    case None => [set_]
    case Some(i) => [set_[..i]] + SplitCommas(set_[i + 1..])
  }

  /** The specs of a set: its pieces, trimmed, without the empty ones. */
  function SpecsOf(pieces: seq<string>): seq<string> {
    if pieces == [] then []
    else (if Trim(pieces[0]) == "" then [] else [Trim(pieces[0])]) + SpecsOf(pieces[1..])
  }

  /** The satisfiable ranges of well-formed specs, in order. */
  function Ranges(specs: seq<string>, size: nat, capped: bool): seq<Range> {
    if specs == [] then []
    else
      var e := Evaluate(specs[0], size, capped);
      (if e.Wanted? then [e.range] else []) + Ranges(specs[1..], size, capped)
  }

  predicate AnyMalformed(specs: seq<string>, size: nat, capped: bool) {
    exists s <- specs :: Evaluate(s, size, capped) == Malformed
  }

  function Decide(specs: seq<string>, size: nat, maxRanges: nat, capped: bool): RangeSet {
    if specs == [] || |specs| > maxRanges || AnyMalformed(specs, size, capped) then Ignored
    else
      var ranges := Ranges(specs, size, capped);
      if ranges == [] then NoneSatisfiable else Satisfiable(ranges)
  }

  /** The text after `bytes=`, if the header starts so. */
  function UnitOf(header: string): Option<string> {
    var h := Trim(header);
    if |h| < 6 || !IEquals(h[..5], "bytes") then None
    else
      var rest := Trim(h[5..]);
      if rest == "" || rest[0] != '=' then None else Some(rest[1..])
  }

  function Parse(header: string, size: nat, maxRanges: nat, capped: bool): RangeSet {
    match UnitOf(header)
    case None => Ignored
    case Some(set_) => Decide(SpecsOf(SplitCommas(set_)), size, maxRanges, capped)
  }

  /** Pieces with commas between them. */
  function Commas(pieces: seq<string>): string {
    if pieces == [] then "" else if |pieces| == 1 then pieces[0] else pieces[0] + "," + Commas(pieces[1..])
  }

  lemma {:induction false} CommasAreSplit(pieces: seq<string>)
    requires pieces != [] && forall p <- pieces :: ',' !in p
    ensures SplitCommas(Commas(pieces)) == pieces
    decreases |pieces|
  {
    hide Find;
    var p, rest := pieces[0], pieces[1..];
    assert pieces == [p] + rest;
    if rest == [] {
      FindNothing(p, ",");
    } else {
      CommasAreSplit(rest);
      assert p + "," + Commas(rest) == p + ("," + Commas(rest));
      FindAfter(p, ",", Commas(rest));
    }
  }

  /** A spec that may stand in a header. */
  predicate IsElement(s: string) {
    ',' !in s && s != "" && s[0] != ' ' && s[0] != '\t' && s[|s| - 1] != ' ' && s[|s| - 1] != '\t'
  }

  function Padded(pads: seq<string>, specs: seq<string>): seq<string>
    requires |pads| == 2 * |specs|
  {
    if specs == [] then [] else [pads[0] + (specs[0] + pads[1])] + Padded(pads[2..], specs[1..])
  }

  lemma {:induction false} PaddedSpecs(pads: seq<string>, specs: seq<string>)
    requires |pads| == 2 * |specs| && (forall p <- pads :: Blanks(p)) && forall s <- specs :: IsElement(s)
    ensures SpecsOf(Padded(pads, specs)) == specs
    ensures |Padded(pads, specs)| == |specs| && forall p <- Padded(pads, specs) :: ',' !in p
    decreases |specs|
  {
    hide Trim, IsElement, Blanks;
    if specs != [] {
      PaddedSpecs(pads[2..], specs[1..]);
      assert pads[0] in pads && pads[1] in pads && specs[0] in specs;
      OnePadded(pads[0], specs[0], pads[1]);
    }
  }

  lemma OnePadded(front: string, s: string, back: string)
    requires Blanks(front) && Blanks(back) && IsElement(s)
    ensures Trim(front + (s + back)) == s && ',' !in front + (s + back) && s != ""
  {
    TrimPads(front, s, back);
  }

  /** How a header is read: the unit in any letter case, `=`, and specs with commas and blanks between. */
  lemma HeaderIsRead(unit: string, pads: seq<string>, specs: seq<string>, size: nat, maxRanges: nat)
    requires IEquals(unit, "bytes") && |pads| == 2 * |specs| && specs != [] && pads[|pads| - 1] == ""
    requires (forall p <- pads :: Blanks(p)) && forall s <- specs :: IsElement(s)
    ensures Parse(unit + "=" + Commas(Padded(pads, specs)), size, maxRanges, true) ==
            if |specs| > maxRanges || exists s <- specs :: Evaluate(s, size, true) == Malformed then Ignored
            else if forall s <- specs :: Evaluate(s, size, true) == Unsatisfiable then NoneSatisfiable
            else Satisfiable(Ranges(specs, size, true))
  {
    RangesAreWanted(specs, size);
    hide Trim, Find, IsElement, Blanks, Evaluate;
    PaddedSpecs(pads, specs);
    var set_ := Commas(Padded(pads, specs));
    CommasAreSplit(Padded(pads, specs));
    CommasEnd(pads, specs);
    UnitIsRead(unit, set_);
  }

  lemma {:induction false} RangesAreWanted(specs: seq<string>, size: nat)
    ensures Ranges(specs, size, true) == [] <==> forall s <- specs :: !Evaluate(s, size, true).Wanted?
    ensures forall i | 0 <= i < |specs| && Evaluate(specs[i], size, true).Wanted? ::
              Evaluate(specs[i], size, true).range in Ranges(specs, size, true)
    ensures |Ranges(specs, size, true)| <= |specs|
    decreases |specs|
  {
    hide Evaluate;
    if specs != [] {
      RangesAreWanted(specs[1..], size);
      assert forall s <- specs :: s == specs[0] || s in specs[1..];
      assert forall s <- specs[1..] :: s in specs;
    }
  }

  lemma {:induction false} CommasEnd(pads: seq<string>, specs: seq<string>)
    requires |pads| == 2 * |specs| && specs != [] && pads[|pads| - 1] == "" && forall s <- specs :: IsElement(s)
    ensures var set_ := Commas(Padded(pads, specs)); set_ != "" && set_[|set_| - 1] != ' ' && set_[|set_| - 1] != '\t'
    decreases |specs|
  {
    assert specs[0] in specs;
    if |specs| > 1 { CommasEnd(pads[2..], specs[1..]); }
  }

  lemma UnitIsRead(unit: string, set_: string)
    requires IEquals(unit, "bytes") && set_ != "" && set_[|set_| - 1] != ' ' && set_[|set_| - 1] != '\t'
    ensures UnitOf(unit + "=" + set_) == Some(set_)
  {
    var h := unit + "=" + set_;
    assert Lower(unit[0]) == 'b';
    TrimPads("", h, "");
    assert "" + (h + "") == h && h[..5] == unit && h[5..] == "=" + set_;
    TrimPads("", "=" + set_, "");
    assert "" + ("=" + set_ + "") == "=" + set_;
  }

  /** `parse_range`. */
  method ParseRange(header: string, size: nat, maxRanges: nat) returns (r: RangeSet)
    requires size <= MAX
    ensures r == Parse(header, size, maxRanges, true)
    ensures r.Satisfiable? ==> r.ranges != [] && forall x <- r.ranges :: x.first <= x.last < size
  {
    hide Find, Trim, Decide;
    var h := TrimLoop(header);
    if |h| < 6 { return Ignored; }
    if !IEquals(h[..5], "bytes") { return Ignored; }
    var set_ := TrimLoop(h[5..]);
    if set_ == "" || set_[0] != '=' { return Ignored; }
    r := ParseSet(set_[1..], size, maxRanges);
  }

  /** The loop over the specs. */
  method ParseSet(text: string, size: nat, maxRanges: nat) returns (r: RangeSet)
    requires size <= MAX
    ensures r == Decide(SpecsOf(SplitCommas(text)), size, maxRanges, true)
    ensures r.Satisfiable? ==> r.ranges != [] && forall x <- r.ranges :: x.first <= x.last < size
  {
    hide Find, Trim, Evaluate, SpecsOf, SplitCommas, Ranges, AnyMalformed, Decide;
    var set_ := text;
    ghost var specs := SpecsOf(SplitCommas(set_));
    ghost var seen: seq<string> := [];
    var count := 0;
    var ranges: seq<Range> := [];
    assert [] + specs == specs;
    NothingSeen(size);
    while true
      invariant seen + SpecsOf(SplitCommas(set_)) == specs
      invariant count == |seen| <= maxRanges
      invariant !AnyMalformed(seen, size, true)
      invariant ranges == Ranges(seen, size, true)
      invariant forall x <- ranges :: x.first <= x.last < size
      decreases |set_|
    {
      var comma := Find(set_, ",");
      var spec := TrimLoop(if comma.None? then set_ else set_[..comma.value]);
      NextSpec(seen, set_, spec, specs);
      if spec != "" {
        count := count + 1;
        IgnoredWhen(specs, spec, size, maxRanges);
        if count > maxRanges { return Ignored; }
        var e := EvaluateSpec(spec, size);
        SaturationIsExact(spec, size);
        if e == Malformed { return Ignored; }
        RangesSnoc(seen, spec, size);
        StillNoneMalformed(seen, spec, size);
        if e.Wanted? { ranges := ranges + [e.range]; }
        seen := seen + [spec];
      }
      if comma.None? { break; }
      set_ := set_[comma.value + 1..];
    }
    assert specs == seen;
    DecidedAtTheEnd(specs, size, maxRanges);
    if count == 0 { return Ignored; }
    return if ranges == [] then NoneSatisfiable else Satisfiable(ranges);
  }

  lemma NothingSeen(size: nat)
    ensures !AnyMalformed([], size, true) && Ranges([], size, true) == []
  {
  }

  lemma StillNoneMalformed(specs: seq<string>, spec: string, size: nat)
    requires !AnyMalformed(specs, size, true) && Evaluate(spec, size, true) != Malformed
    ensures !AnyMalformed(specs + [spec], size, true)
  {
  }

  /** One malformed spec, or one too many, and the header is ignored. */
  lemma IgnoredWhen(specs: seq<string>, spec: string, size: nat, maxRanges: nat)
    requires spec in specs
    ensures |specs| > maxRanges || Evaluate(spec, size, true) == Malformed ==> Decide(specs, size, maxRanges, true) == Ignored
  {
  }

  lemma DecidedAtTheEnd(specs: seq<string>, size: nat, maxRanges: nat)
    requires !AnyMalformed(specs, size, true) && |specs| <= maxRanges
    ensures Decide(specs, size, maxRanges, true) ==
            if specs == [] then Ignored
            else if Ranges(specs, size, true) == [] then NoneSatisfiable
            else Satisfiable(Ranges(specs, size, true))
  {
  }

  lemma {:induction false} RangesSnoc(specs: seq<string>, spec: string, size: nat)
    ensures Ranges(specs + [spec], size, true) ==
            Ranges(specs, size, true) +
            (if Evaluate(spec, size, true).Wanted? then [Evaluate(spec, size, true).range] else [])
  {
    if specs != [] {
      RangesSnoc(specs[1..], spec, size);
      assert (specs + [spec])[1..] == specs[1..] + [spec];
    } else {
      assert [spec][1..] == [];
      assert specs + [spec] == [spec];
    }
  }

  /** Taking the next spec off a set keeps the specs seen and to come together. */
  lemma NextSpec(seen: seq<string>, set_: string, spec: string, specs: seq<string>)
    requires seen + SpecsOf(SplitCommas(set_)) == specs
    requires spec == Trim(if Find(set_, ",").None? then set_ else set_[..Find(set_, ",").value])
    ensures var seen1 := if spec == "" then seen else seen + [spec];
            (match Find(set_, ",")
             case None => specs == seen1
             case Some(i) => specs == seen1 + SpecsOf(SplitCommas(set_[i + 1..]))) &&
            (spec != "" ==> spec in specs && |specs| > |seen|)
  {
    hide Find, Trim;
    var pieces := SplitCommas(set_);
    assert SpecsOf(pieces) == (if spec == "" then [] else [spec]) + SpecsOf(pieces[1..]);
    if Find(set_, ",").None? {
      assert pieces[1..] == [];
    } else {
      assert pieces[1..] == SplitCommas(set_[Find(set_, ",").value + 1..]);
    }
  }

  /** `parse_range` agrees with unbounded arithmetic on a header exactly when no spec hides an
      inversion, or the header is ignored anyway: too many specs, or another malformed one. */
  lemma ParseIsExact(header: string, size: nat, maxRanges: nat)
    requires size <= MAX && UnitOf(header).Some?
    ensures var specs := SpecsOf(SplitCommas(UnitOf(header).value));
            Parse(header, size, maxRanges, true) == Parse(header, size, maxRanges, false) <==>
              (forall s <- specs :: !HiddenInversion(s)) || |specs| > maxRanges ||
              (exists s <- specs :: !HiddenInversion(s) && Evaluate(s, size, false) == Malformed)
  {
    var specs := SpecsOf(SplitCommas(UnitOf(header).value));
    forall s <- specs
      ensures Evaluate(s, size, true) == Malformed <==> !HiddenInversion(s) && Evaluate(s, size, false) == Malformed
      ensures !HiddenInversion(s) ==> Evaluate(s, size, true) == Evaluate(s, size, false)
      ensures HiddenInversion(s) ==> Evaluate(s, size, false) == Malformed
    {
      SaturationIsExact(s, size);
    }
    if forall s <- specs :: !HiddenInversion(s) { SameRanges(specs, size); }
  }

  lemma DecimalSnoc(s: string, c: char)
    requires AllDigits(s) && IsDigit(c)
    ensures AllDigits(s + [c]) && Decimal(s + [c]) == 10 * Decimal(s) + DigitValue(c)
  {
    assert (s + [c])[..|s|] == s;
  }

  lemma DecimalFour(s: string, a: char, b: char, c: char, d: char)
    requires AllDigits(s) && IsDigit(a) && IsDigit(b) && IsDigit(c) && IsDigit(d)
    ensures AllDigits(s + [a, b, c, d])
    ensures Decimal(s + [a, b, c, d])
         == 10000 * Decimal(s) + 1000 * DigitValue(a) + 100 * DigitValue(b) + 10 * DigitValue(c) + DigitValue(d)
  {
    DecimalSnoc(s, a);
    DecimalSnoc(s + [a], b);
    DecimalSnoc(s + [a] + [b], c);
    DecimalSnoc(s + [a] + [b] + [c], d);
    assert s + [a] + [b] + [c] + [d] == s + [a, b, c, d];
  }

  const BEYOND := "18446744073709551617"
  const JUST_BEYOND := "18446744073709551616"

  /** Two above and one above the 64-bit maximum. */
  lemma BeyondTheMaximum()
    ensures AllDigits(BEYOND) && Decimal(BEYOND) == MAX + 2
    ensures AllDigits(JUST_BEYOND) && Decimal(JUST_BEYOND) == MAX + 1
  {
    hide Decimal;
    var a, b, c, d := "1844", "18446744", "184467440737", "1844674407370955";
    EmptyDecimal();
    DecimalFour("", '1', '8', '4', '4');
    assert "" + ['1', '8', '4', '4'] == a;
    DecimalFour(a, '6', '7', '4', '4');
    assert a + ['6', '7', '4', '4'] == b;
    DecimalFour(b, '0', '7', '3', '7');
    assert b + ['0', '7', '3', '7'] == c;
    DecimalFour(c, '0', '9', '5', '5');
    assert c + ['0', '9', '5', '5'] == d;
    DecimalFour(d, '1', '6', '1', '7');
    DecimalFour(d, '1', '6', '1', '6');
    assert d + ['1', '6', '1', '7'] == BEYOND && d + ['1', '6', '1', '6'] == JUST_BEYOND;
  }

  lemma EmptyDecimal()
    ensures AllDigits("") && Decimal("") == 0
  {
  }

  /** An inversion can hide: such a spec is answered as unsatisfiable although it is malformed, so that
      the header is refused where it should be ignored. */
  lemma InversionsCanHide(size: nat, maxRanges: nat)
    requires size <= MAX && maxRanges > 0
    ensures var header := "bytes=" + (BEYOND + ("-" + JUST_BEYOND));
            && Parse(header, size, maxRanges, true) == NoneSatisfiable
            && Parse(header, size, maxRanges, false) == Ignored
  {
    hide *;
    var spec := BEYOND + ("-" + JUST_BEYOND);
    InvertedSpec(spec);
    InvertedSpecText(spec);
    HeaderOfOneSpec("bytes=" + spec, spec);
    OneInvertedSpec("bytes=" + spec, spec, size, maxRanges);
  }

  lemma OneInvertedSpec(header: string, spec: string, size: nat, maxRanges: nat)
    requires size <= MAX && maxRanges > 0 && HiddenInversion(spec)
    requires UnitOf(header) == Some(spec) && SpecsOf(SplitCommas(spec)) == [spec]
    ensures Parse(header, size, maxRanges, true) == NoneSatisfiable && Parse(header, size, maxRanges, false) == Ignored
  {
    hide UnitOf, SplitCommas, SpecsOf, Number, Find;
    SaturationIsExact(spec, size);
    hide Evaluate, HiddenInversion;
    assert [spec][1..] == [] && [spec][0] == spec && spec in [spec];
    assert AnyMalformed([spec], size, false);
    assert !AnyMalformed([spec], size, true);
    assert Ranges([spec][1..], size, true) == [];
    assert Ranges([spec], size, true) == [];
  }

  lemma InvertedSpecText(spec: string)
    requires spec == BEYOND + ("-" + JUST_BEYOND)
    ensures forall k | 0 <= k < |spec| :: IsDigit(spec[k]) || spec[k] == '-'
  {
    BeyondTheMaximum();
    hide Decimal;
    forall k | 0 <= k < |spec| ensures IsDigit(spec[k]) || spec[k] == '-' {
      if k < |BEYOND| {
        assert spec[k] == BEYOND[k];
      } else if k > |BEYOND| {
        assert spec[k] == JUST_BEYOND[k - |BEYOND| - 1];
      }
    }
  }

  lemma InvertedSpec(spec: string)
    requires spec == BEYOND + ("-" + JUST_BEYOND)
    ensures HiddenInversion(spec)
  {
    BeyondTheMaximum();
    hide Find, Decimal;
    assert spec[|BEYOND|..|BEYOND| + 1] == "-";
    forall j: nat | j < |BEYOND| ensures !OccursAt(spec, "-", j) {
      assert spec[j] == BEYOND[j] && IsDigit(BEYOND[j]);
      assert spec[j..j + 1][0] == spec[j];
    }
    FindIs(spec, "-", |BEYOND|);
    assert spec[..|BEYOND|] == BEYOND && spec[|BEYOND| + 1..] == JUST_BEYOND;
  }

  /** A header with one spec, without blanks or commas in it. */
  lemma HeaderOfOneSpec(header: string, spec: string)
    requires header == "bytes=" + spec && spec != "" && forall k | 0 <= k < |spec| :: IsDigit(spec[k]) || spec[k] == '-'
    ensures UnitOf(header) == Some(spec) && SpecsOf(SplitCommas(spec)) == [spec]
  {
    hide Trim, Find, UnitOf, SpecsOf, SplitCommas;
    var rest := "=" + spec;
    Regrouped(spec);
    assert rest[|spec|] == spec[|spec| - 1];
    assert header[|header| - 1] == rest[|spec|] && header[0] == "bytes"[0];
    TrimIdentity(header);
    TrimIdentity(rest);
    UnitIsBytes(header, spec);
    OneSpec(spec);
  }

  lemma Regrouped(spec: string)
    ensures "bytes=" + spec == "bytes" + ("=" + spec)
  {
    assert "bytes=" == "bytes" + "=";
  }

  lemma UnitIsBytes(header: string, spec: string)
    requires Trim(header) == header && |header| >= 6 && header[..5] == "bytes" && header[5..] == "=" + spec
    requires Trim("=" + spec) == "=" + spec
    ensures UnitOf(header) == Some(spec)
  {
    hide Trim;
    assert ("=" + spec)[1..] == spec;
  }

  lemma CommaIsNotHere(s: string, j: nat)
    requires j < |s| ==> s[j] != ','
    ensures !OccursAt(s, ",", j)
  {
    if j < |s| { assert s[j..j + 1] == [s[j]]; }
  }

  lemma OneSpec(spec: string)
    requires spec != "" && forall k | 0 <= k < |spec| :: IsDigit(spec[k]) || spec[k] == '-'
    ensures SpecsOf(SplitCommas(spec)) == [spec]
  {
    hide Trim, Find;
    TrimIdentity(spec);
    forall j: nat ensures !OccursAt(spec, ",", j) { CommaIsNotHere(spec, j); }
    hide OccursAt;
    assert [spec][1..] == [];
  }

  lemma {:induction false} SameRanges(specs: seq<string>, size: nat)
    requires forall s <- specs :: Evaluate(s, size, true) == Evaluate(s, size, false)
    ensures Ranges(specs, size, true) == Ranges(specs, size, false)
  {
    if specs != [] { SameRanges(specs[1..], size); }
  }

  // ---- Coalescing ---------------------------------------------------------------------------------

  /** The byte at offset `b` is wanted. */
  predicate Holds(rs: seq<Range>, b: nat) {
    exists r <- rs :: r.first <= b <= r.last
  }

  predicate Sorted(rs: seq<Range>) {
    forall i, j | 0 <= i < j < |rs| :: rs[i].first <= rs[j].first
  }

  /** Sorted, disjoint and with a gap between neighbours. */
  predicate Separated(rs: seq<Range>) {
    (forall r <- rs :: ValidRange(r)) &&
    (forall i, j | 0 <= i < j < |rs| :: rs[i].last + 1 < rs[j].first)
  }

  function Insert(r: Range, rs: seq<Range>): seq<Range> {
    if rs == [] || r.first <= rs[0].first then [r] + rs else [rs[0]] + Insert(r, rs[1..])
  }

  lemma {:induction false} InsertKeeps(r: Range, rs: seq<Range>)
    requires Sorted(rs)
    ensures Sorted(Insert(r, rs))
    ensures forall x: Range :: x in Insert(r, rs) <==> x == r || x in rs
  {
    if rs != [] && r.first > rs[0].first {
      InsertKeeps(r, rs[1..]);
      var tail := Insert(r, rs[1..]);
      forall j | 0 <= j < |tail| ensures rs[0].first <= tail[j].first {
        assert tail[j] in tail;
      }
    }
  }

  /** `std::ranges::sort` by the first offset. */
  function SortByFirst(rs: seq<Range>): seq<Range> {
    if rs == [] then [] else Insert(rs[0], SortByFirst(rs[1..]))
  }

  lemma {:induction false} SortKeeps(rs: seq<Range>)
    ensures Sorted(SortByFirst(rs))
    ensures forall x: Range :: x in SortByFirst(rs) <==> x in rs
  {
    if rs != [] {
      SortKeeps(rs[1..]);
      InsertKeeps(rs[0], SortByFirst(rs[1..]));
    }
  }

  lemma SameElementsHold(a: seq<Range>, b: seq<Range>)
    requires forall x: Range :: x in a <==> x in b
    ensures forall n: nat :: Holds(a, n) <==> Holds(b, n)
  {
  }

  /** Sort and merge: the same bytes, as separated ranges, without overflow at the last offset. */
  method Coalesce(ranges: seq<Range>) returns (out: seq<Range>)
    requires forall r <- ranges :: ValidRange(r)
    ensures Separated(out)
    ensures forall b: nat :: Holds(out, b) <==> Holds(ranges, b)
    ensures ranges != [] ==> out != []
  {
    hide Holds, SortByFirst;
    var sorted := SortByFirst(ranges);
    SortKeeps(ranges);
    SameElementsHold(sorted, ranges);
    out := [];
    assert sorted[..0] == [];
    for i := 0 to |sorted|
      invariant Separated(out)
      invariant forall b: nat :: Holds(out, b) <==> Holds(sorted[..i], b)
      invariant out != [] ==> i > 0 && out[|out| - 1].first <= sorted[i - 1].first
      invariant i > 0 ==> out != []
    {
      var r := sorted[i];
      assert r in sorted && ValidRange(r);
      assert sorted[..i + 1] == sorted[..i] + [r];
      HoldsAppend(sorted[..i], r);
      if out != [] && (out[|out| - 1].last == MAX || r.first <= out[|out| - 1].last + 1) {
        MergeLast(out, r);
        var back := out[|out| - 1];
        out := out[..|out| - 1] + [back.(last := Max(back.last, r.last))];
      } else {
        HoldsAppend(out, r);
        AppendSeparated(out, r);
        out := out + [r];
      }
    }
    assert sorted[..|sorted|] == sorted;
    if ranges != [] { assert ranges[0] in sorted; }
  }

  lemma AppendSeparated(out: seq<Range>, r: Range)
    requires Separated(out) && ValidRange(r)
    requires out != [] ==> out[|out| - 1].last + 1 < r.first
    ensures Separated(out + [r])
  {
    forall i | 0 <= i < |out| ensures out[i].last + 1 < r.first {
      if i < |out| - 1 { assert out[i].last + 1 < out[|out| - 1].first && out[|out| - 1] in out; }
    }
  }

  /** Growing the last range to take in one that starts inside or right after it. */
  lemma MergeLast(out: seq<Range>, r: Range)
    requires Separated(out) && out != [] && ValidRange(r)
    requires out[|out| - 1].first <= r.first
    requires out[|out| - 1].last == MAX || r.first <= out[|out| - 1].last + 1
    ensures var back := out[|out| - 1];
            var out1 := out[..|out| - 1] + [back.(last := Max(back.last, r.last))];
            Separated(out1) && forall b: nat :: Holds(out1, b) <==> Holds(out, b) || r.first <= b <= r.last
  {
    var back := out[|out| - 1];
    var front := out[..|out| - 1];
    assert out == front + [back];
    assert back in out && forall x <- front :: x in out;
    MergeHolds(front, back, r);
    AppendSeparated(front, back.(last := Max(back.last, r.last)));
  }

  lemma MergeHolds(front: seq<Range>, back: Range, r: Range)
    requires ValidRange(back) && ValidRange(r) && back.first <= r.first
    requires back.last == MAX || r.first <= back.last + 1
    ensures forall b: nat ::
              Holds(front + [back.(last := Max(back.last, r.last))], b) <==>
              Holds(front + [back], b) || r.first <= b <= r.last
  {
    hide Holds;
    HoldsAppend(front, back);
    HoldsAppend(front, back.(last := Max(back.last, r.last)));
  }

  lemma HoldsAppend(rs: seq<Range>, r: Range)
    ensures forall b: nat :: Holds(rs + [r], b) <==> Holds(rs, b) || r.first <= b <= r.last
  {
    forall b: nat ensures Holds(rs + [r], b) <==> Holds(rs, b) || r.first <= b <= r.last {
      if Holds(rs, b) {
        var x :| x in rs && x.first <= b <= x.last;
        assert x in rs + [r];
      }
      if r.first <= b <= r.last { assert r in rs + [r]; }
    }
  }

  /** Separated ranges are determined by their bytes: the result of coalescing is the only one. */
  lemma {:induction false} SeparatedIsUnique(a: seq<Range>, b: seq<Range>)
    requires Separated(a) && Separated(b)
    requires forall x: nat :: Holds(a, x) <==> Holds(b, x)
    ensures a == b
    decreases |a|
  {
    if a == [] || b == [] {
      if a != [] { FirstHolds(a); }
      if b != [] { FirstHolds(b); }
    } else {
      SameFirst(a, b);
      SameFirst(b, a);
      SameLast(a, b);
      SameLast(b, a);
      assert a[0] == b[0];
      forall x: nat ensures Holds(a[1..], x) <==> Holds(b[1..], x) {
        HoldsTail(a, x);
        HoldsTail(b, x);
      }
      SeparatedIsUnique(a[1..], b[1..]);
      assert a == [a[0]] + a[1..] && b == [b[0]] + b[1..];
    }
  }

  lemma FirstHolds(a: seq<Range>)
    requires Separated(a) && a != []
    ensures Holds(a, a[0].first) && a[0].first <= a[0].last
  {
    assert a[0] in a && ValidRange(a[0]);
  }

  lemma HoldsTail(a: seq<Range>, x: nat)
    requires Separated(a) && a != []
    ensures Holds(a[1..], x) <==> Holds(a, x) && x > a[0].last
  {
    if Holds(a[1..], x) {
      var i :| 0 <= i < |a[1..]| && a[1..][i].first <= x <= a[1..][i].last;
      assert a[i + 1] in a && a[0].last + 1 < a[i + 1].first;
    }
    if Holds(a, x) && x > a[0].last {
      var i :| 0 <= i < |a| && a[i].first <= x <= a[i].last;
      assert a[1..][i - 1] == a[i];
    }
  }

  lemma SameFirst(a: seq<Range>, b: seq<Range>)
    requires Separated(a) && Separated(b) && a != [] && b != []
    requires forall x: nat :: Holds(a, x) <==> Holds(b, x)
    ensures a[0].first >= b[0].first
  {
    assert ValidRange(a[0]) && Holds(a, a[0].first);
    var i :| 0 <= i < |b| && b[i].first <= a[0].first <= b[i].last;
    if i > 0 { assert b[0].last + 1 < b[i].first && ValidRange(b[0]); }
  }

  lemma SameLast(a: seq<Range>, b: seq<Range>)
    requires Separated(a) && Separated(b) && a != [] && b != [] && a[0].first == b[0].first
    requires forall x: nat :: Holds(a, x) <==> Holds(b, x)
    ensures a[0].last <= b[0].last
  {
    if b[0].last < a[0].last {
      var x := b[0].last + 1;
      assert b[0] in b && ValidRange(b[0]);
      assert Holds(a, x) by { assert a[0] in a; }
      forall i | 0 <= i < |b| ensures !(b[i].first <= x <= b[i].last) {
        if i > 0 { assert b[0].last + 1 < b[i].first; }
      }
    }
  }
}
