/** The five-field cron grammar and its expansion into value sets. Every refusal of the parser is
    the one `InvalidCronExpressionError`, here `None`. */
module Cron {
  import opened Texts
  import Calendar

  const STAR: Code := 42
  const COMMA: Code := 44
  const DASH: Code := 45
  const SLASH: Code := 47

  datatype Definition = Definition(minimum: nat, maximum: nat, aliasesSunday: bool) {
    function Normalize(value: int): int {
      if aliasesSunday && value == 7 then 0 else value
    }
  }

  const MINUTE := Definition(0, 59, false)
  const HOUR := Definition(0, 23, false)
  const DAY_OF_MONTH := Definition(1, 31, false)
  const MONTH := Definition(1, 12, false)
  const DAY_OF_WEEK := Definition(0, 7, true)

  datatype Field = Field(values: set<int>, isStarred: bool)

  datatype Schedule =
    Schedule(minute: Field, hour: Field, dayOfMonth: Field, month: Field, dayOfWeek: Field)

  // ---- numbers, ranges, components -------------------------------------------------------

  predicate IsDecimal(t: Text) {
    t != [] && forall i :: 0 <= i < |t| ==> 48 <= t[i] <= 57
  }

  function Value(t: Text): nat
    requires t == [] || IsDecimal(t)
  {
    if t == [] then 0
    else
      var front := t[..|t| - 1];
      assert front == [] || IsDecimal(front);
      Value(front) * 10 + (t[|t| - 1] - 48)
  }

  function ParseNumber(t: Text, def: Definition): Option<nat> {
    if !IsDecimal(t) then None
    else if !(def.minimum <= Value(t) <= def.maximum) then None
    else Some(Value(t))
  }

  /** `t.count(c)` */
  function Count(t: Text, c: Code): nat {
    |Split(t, c)| - 1
  }

  function ParseRange(t: Text, def: Definition): Option<(nat, nat)> {
    if Count(t, DASH) != 1 then None
    else
      var start := ParseNumber(Split(t, DASH)[0], def);
      var stop := ParseNumber(Split(t, DASH)[1], def);
      if start.None? || stop.None? || start.value > stop.value then None
      else Some((start.value, stop.value))
  }

  /** The parameters of `range(start, stop + 1, step)`. */
  datatype Stepped = Stepped(start: nat, stop: nat, step: nat) {
    predicate Holds(v: int) {
      start <= v <= stop && step >= 1 && (v - start) % step == 0
    }
  }

  function ExpandComponent(component: Text, def: Definition): Option<Stepped> {
    if Count(component, SLASH) > 1 then None
    else
      var base := Split(component, SLASH)[0];
      var separated := Count(component, SLASH) == 1;
      var step := if separated then ParseNumber(Split(component, SLASH)[1], def) else Some(1);
      if step.None? || step.value < 1 then None
      else if base == [STAR] then Some(Stepped(def.minimum, def.maximum, step.value))
      else if DASH in base then
        var r := ParseRange(base, def);
        if r.None? then None else Some(Stepped(r.value.0, r.value.1, step.value))
      else if separated then None
      else
        var v := ParseNumber(base, def);
        if v.None? then None else Some(Stepped(v.value, v.value, step.value))
  }

  // ---- the grammar, as strings are built from it -----------------------------------------

  /** `t` writes the in-bounds number `v`. */
  predicate Writes(t: Text, v: nat, def: Definition) {
    IsDecimal(t) && Value(t) == v && def.minimum <= v <= def.maximum
  }

  predicate WritesRange(t: Text, a: Text, b: Text, s: Stepped, def: Definition) {
    t == a + [DASH] + b && Writes(a, s.start, def) && Writes(b, s.stop, def) && s.start <= s.stop
  }

  /** `*` or `a-b`, the two bases a step may follow. */
  ghost predicate WritesBase(t: Text, s: Stepped, def: Definition) {
    || (t == [STAR] && s.start == def.minimum && s.stop == def.maximum)
    || (exists a, b :: WritesRange(t, a, b, s, def))
  }

  predicate WritesStep(t: Text, base: Text, step: Text, s: Stepped, def: Definition) {
    t == base + [SLASH] + step && Writes(step, s.step, def) && s.step >= 1
  }

  /** The supported grammar: a number, or a base with an optional positive step. */
  ghost predicate InGrammar(t: Text, s: Stepped, def: Definition) {
    || (Writes(t, s.start, def) && s.stop == s.start && s.step == 1)
    || (WritesBase(t, s, def) && s.step == 1)
    || (exists base, step :: WritesStep(t, base, step, s, def) && WritesBase(base, s, def))
  }

  lemma {:induction false} DecimalFree(t: Text, c: Code)
    requires IsDecimal(t) && !(48 <= c <= 57)
    ensures c !in t
  {
  }

  lemma {:induction false} RangeParses(t: Text, s: Stepped, def: Definition)
    requires s.step == 1
    ensures (ParseRange(t, def) == Some((s.start, s.stop)))
        <==> exists a, b :: WritesRange(t, a, b, s, def)
  {
    SplitJoin(t, DASH);
    if ParseRange(t, def) == Some((s.start, s.stop)) {
      var parts := Split(t, DASH);
      assert parts == [parts[0], parts[1]];
      assert WritesRange(t, parts[0], parts[1], s, def);
    }
    forall a, b | WritesRange(t, a, b, s, def)
      ensures ParseRange(t, def) == Some((s.start, s.stop))
    {
      SplitAt(a, b, DASH);
      SplitFree(b, DASH);
    }
  }

  lemma {:induction false} DashIffRange(t: Text, s: Stepped, def: Definition)
    ensures (exists a, b :: WritesRange(t, a, b, s, def)) ==> DASH in t && SLASH !in t && t != [STAR]
  {
    forall a, b | WritesRange(t, a, b, s, def)
      ensures DASH in t && SLASH !in t && t != [STAR]
    {
      assert t[|a|] == DASH;
    }
  }

  /** The base before the step, parsed by the same branches `ExpandComponent` takes. */
  function ExpandBase(base: Text, def: Definition): Option<(nat, nat)> {
    if base == [STAR] then Some((def.minimum, def.maximum))
    else if DASH in base then ParseRange(base, def)
    else None
  }

  lemma {:induction false} BaseParses(base: Text, s: Stepped, def: Definition)
    ensures ExpandBase(base, def) == Some((s.start, s.stop)) <==> WritesBase(base, s, def)
    ensures WritesBase(base, s, def) ==> SLASH !in base
  {
    var unit := s.(step := 1);
    RangeParses(base, unit, def);
    DashIffRange(base, s, def);
    assert forall a, b :: WritesRange(base, a, b, unit, def) <==> WritesRange(base, a, b, s, def);
  }

  lemma {:induction false} StepParses(t: Text, s: Stepped, def: Definition)
    requires Count(t, SLASH) == 1
    ensures ExpandComponent(t, def) == Some(s)
        <==> exists base, step :: WritesStep(t, base, step, s, def) && WritesBase(base, s, def)
  {
    SplitJoin(t, SLASH);
    var parts := Split(t, SLASH);
    assert parts == [parts[0], parts[1]];
    BaseParses(parts[0], s, def);
    if ExpandComponent(t, def) == Some(s) {
      assert WritesStep(t, parts[0], parts[1], s, def);
    }
    forall base, step | WritesStep(t, base, step, s, def) && WritesBase(base, s, def)
      ensures ExpandComponent(t, def) == Some(s)
    {
      BaseParses(base, s, def);
      SplitAt(base, step, SLASH);
      SplitFree(step, SLASH);
    }
  }

  lemma {:induction false} NoStepParses(t: Text, s: Stepped, def: Definition)
    requires SLASH !in t
    ensures ExpandComponent(t, def) == Some(s)
        <==> s.step == 1 && ((Writes(t, s.start, def) && s.stop == s.start) || WritesBase(t, s, def))
  {
    SplitFree(t, SLASH);
    BaseParses(t, s, def);
    if Writes(t, s.start, def) {
      DecimalFree(t, DASH);
      assert t[0] != STAR;
    }
  }

  lemma {:induction false} StepHasSlash(t: Text, base: Text, step: Text, s: Stepped, def: Definition)
    requires WritesStep(t, base, step, s, def)
    ensures SLASH in t
    ensures WritesBase(base, s, def) ==> Count(t, SLASH) == 1
  {
    assert t[|base|] == SLASH;
    BaseParses(base, s, def);
    if WritesBase(base, s, def) {
      SplitAt(base, step, SLASH);
      SplitFree(step, SLASH);
    }
  }

  lemma {:induction false} CountZero(t: Text, c: Code)
    ensures Count(t, c) == 0 <==> c !in t
  {
    SplitJoin(t, c);
    if c !in t {
      SplitFree(t, c);
    }
  }

  /** A component is accepted exactly when the grammar builds it, and then denotes the range the
      grammar assigns it. */
  lemma {:induction false} ComponentIffGrammar(t: Text, s: Stepped, def: Definition)
    ensures ExpandComponent(t, def) == Some(s) <==> InGrammar(t, s, def)
    ensures InGrammar(t, s, def) && def.minimum <= def.maximum ==>
              s.step >= 1 && def.minimum <= s.start <= s.stop <= def.maximum
  {
    forall base, step | WritesStep(t, base, step, s, def) && WritesBase(base, s, def)
      ensures SLASH in t && Count(t, SLASH) == 1
    {
      StepHasSlash(t, base, step, s, def);
    }
    CountZero(t, SLASH);
    if Count(t, SLASH) == 0 {
      NoStepParses(t, s, def);
    } else {
      BaseParses(t, s, def);
      assert !Writes(t, s.start, def);
      if Count(t, SLASH) == 1 {
        StepParses(t, s, def);
      }
    }
  }

  // ---- fields ----------------------------------------------------------------------------

  /** `range(start, stop + 1, step)` as a set. */
  function Members(s: Stepped): set<int> {
    set v | s.start <= v <= s.stop && s.Holds(v) :: v
  }

  ghost predicate Grammatical(component: Text, def: Definition) {
    exists s :: InGrammar(component, s, def)
  }

  ghost predicate ComponentSelects(component: Text, def: Definition, v: int) {
    exists s :: InGrammar(component, s, def) && s.Holds(v)
  }

  /** The expansion answers both questions about a component. */
  lemma {:induction false} ExpansionDecides(t: Text, def: Definition)
    ensures var r := ExpandComponent(t, def);
            && (r.Some? <==> Grammatical(t, def))
            && (r.Some? ==> forall v :: v in Members(r.value) <==> ComponentSelects(t, def, v))
  {
    var r := ExpandComponent(t, def);
    if r.Some? {
      ComponentIffGrammar(t, r.value, def);
    }
    forall s | InGrammar(t, s, def) ensures r == Some(s) {
      ComponentIffGrammar(t, s, def);
    }
  }

  ghost predicate FieldInGrammar(field: Text, def: Definition) {
    forall c <- Split(field, COMMA) :: Grammatical(c, def)
  }

  /** `v` is the normal form of a value some component's stepped range holds. */
  ghost predicate FieldDenotes(field: Text, def: Definition, v: int) {
    exists c, u :: c in Split(field, COMMA) && ComponentSelects(c, def, u) && def.Normalize(u) == v
  }

  /** A field parses exactly when every comma component is in the grammar; its set is then exactly
      the normalized union of the components' stepped ranges. */
  method ParseField(field: Text, def: Definition) returns (r: Option<Field>)
    ensures r.Some? <==> FieldInGrammar(field, def)
    ensures r.Some? ==> forall v :: v in r.value.values <==> FieldDenotes(field, def, v)
    ensures r.Some? ==> (r.value.isStarred <==> STAR in field)
  {
    var components := Split(field, COMMA);
    if field == [] || exists c <- components :: c == [] {
      ghost var c :| c in components && c == [];
      ExpansionDecides(c, def);
      return None;
    }
    var values: set<int> := {};
    for i := 0 to |components|
      invariant forall j :: 0 <= j < i ==> Grammatical(components[j], def)
      invariant forall v :: v in values <==>
                exists j :: 0 <= j < i && ComponentSelects(components[j], def, v)
    {
      var s := ExpandComponent(components[i], def);
      ExpansionDecides(components[i], def);
      if s.None? {
        return None;
      }
      values := values + Members(s.value);
    }
    var normalized := set v | v in values :: def.Normalize(v);
    forall v ensures v in normalized <==> FieldDenotes(field, def, v) {
      if v in normalized {
        var u :| u in values && def.Normalize(u) == v;
        var j :| 0 <= j < |components| && ComponentSelects(components[j], def, u);
        assert components[j] in components;
      }
    }
    return Some(Field(normalized, STAR in field));
  }

  /** What a parsed field guarantees its readers: never empty, and within its bounds with the
      second Sunday folded onto the first. */
  predicate Within(f: Field, lo: int, hi: int) {
    f.values != {} && forall v <- f.values :: lo <= v <= hi
  }

  lemma {:induction false} DenotedBounds(field: Text, def: Definition, v: int)
    requires FieldDenotes(field, def, v) && def.minimum <= def.maximum
    requires def.aliasesSunday ==> def.minimum == 0
    ensures def.minimum <= v <= def.maximum && (def.aliasesSunday ==> v != 7)
  {
    var c, u :| c in Split(field, COMMA) && ComponentSelects(c, def, u) && def.Normalize(u) == v;
    var s :| InGrammar(c, s, def) && s.Holds(u);
    ComponentIffGrammar(c, s, def);
  }

  lemma {:induction false} DenotesSomething(field: Text, def: Definition) returns (v: int)
    requires FieldInGrammar(field, def) && def.minimum <= def.maximum
    ensures FieldDenotes(field, def, v)
  {
    var c := Split(field, COMMA)[0];
    assert Grammatical(c, def);
    var s :| InGrammar(c, s, def);
    ComponentIffGrammar(c, s, def);
    assert s.Holds(s.start);
    v := def.Normalize(s.start);
  }

  lemma {:induction false} ParsedFieldWithin(field: Text, def: Definition, f: Field)
    requires FieldInGrammar(field, def) && def.minimum <= def.maximum
    requires def.aliasesSunday ==> def.minimum == 0
    requires forall v :: v in f.values <==> FieldDenotes(field, def, v)
    ensures Within(f, def.minimum, def.maximum) && (def.aliasesSunday ==> 7 !in f.values)
  {
    var v := DenotesSomething(field, def);
    forall v | v in f.values
      ensures def.minimum <= v <= def.maximum && (def.aliasesSunday ==> v != 7)
    {
      DenotedBounds(field, def, v);
    }
  }

  // ---- what a field means, told without the parser's steps -------------------------------

  /** A stepped range is its start and every further step up to the stop. */
  lemma {:induction false} MembersAreSteps(s: Stepped, v: int)
    requires s.step >= 1
    ensures v in Members(s) <==> exists k: nat :: v == s.start + k * s.step && v <= s.stop
  {
    if v in Members(s) {
      var k: nat := (v - s.start) / s.step;
      assert v - s.start == s.step * k;
      assert v == s.start + k * s.step;
    }
    forall k: nat | v == s.start + k * s.step && v <= s.stop ensures v in Members(s) {
      Calendar.Quotient(v - s.start, s.step, k, 0);
      assert s.Holds(v);
    }
  }

  /** Weekdays count modulo seven; every other field counts as written. */
  function Counted(def: Definition, u: int): int {
    if def == DAY_OF_WEEK then u % 7 else u
  }

  /** Some component of the field selects a number that counts as `v`. */
  ghost predicate FieldMeans(field: Text, def: Definition, v: int) {
    exists c, u :: c in Split(field, COMMA) && ComponentSelects(c, def, u) && Counted(def, u) == v
  }

  predicate IsField(def: Definition) {
    def in {MINUTE, HOUR, DAY_OF_MONTH, MONTH, DAY_OF_WEEK}
  }

  lemma {:induction false} NormalizeCounts(c: Text, def: Definition, u: int)
    requires IsField(def) && ComponentSelects(c, def, u)
    ensures def.minimum <= u <= def.maximum && def.Normalize(u) == Counted(def, u)
  {
    var s :| InGrammar(c, s, def) && s.Holds(u);
    ComponentIffGrammar(c, s, def);
  }

  /** The one alias the code folds is the count modulo seven. */
  lemma {:induction false} DenotesIsMeans(field: Text, def: Definition, v: int)
    requires IsField(def)
    ensures FieldDenotes(field, def, v) <==> FieldMeans(field, def, v)
  {
    forall c, u | ComponentSelects(c, def, u) ensures def.Normalize(u) == Counted(def, u) {
      NormalizeCounts(c, def, u);
    }
  }

  /** A grammatical component has one range. */
  lemma {:induction false} OnlyRange(t: Text, s: Stepped, def: Definition)
    requires InGrammar(t, s, def)
    ensures forall v :: ComponentSelects(t, def, v) <==> s.Holds(v)
    ensures Grammatical(t, def)
  {
    ComponentIffGrammar(t, s, def);
    forall s' | InGrammar(t, s', def) ensures s' == s {
      ComponentIffGrammar(t, s', def);
    }
  }

  /** A star alone means every value of the field, the two Sundays being one. */
  lemma {:induction false} StarMeans(star: Text, def: Definition, v: int)
    requires star == ['*' as int] && IsField(def)
    ensures FieldMeans(star, def, v) <==>
              if def == DAY_OF_WEEK then 0 <= v <= 6 else def.minimum <= v <= def.maximum
  {
    var all := Stepped(def.minimum, def.maximum, 1);
    SplitFree(star, COMMA);
    assert InGrammar(star, all, def);
    OnlyRange(star, all, def);
    assert star in Split(star, COMMA);
    if def.minimum <= v <= def.maximum {
      assert ComponentSelects(star, def, v);
    }
  }

  /** The bounds of the five fields. */
  lemma {:induction false} FieldBounds(def: Definition)
    ensures def == MINUTE ==> (def.minimum, def.maximum) == (0, 59)
    ensures def == HOUR ==> (def.minimum, def.maximum) == (0, 23)
    ensures def == DAY_OF_MONTH ==> (def.minimum, def.maximum) == (1, 31)
    ensures def == MONTH ==> (def.minimum, def.maximum) == (1, 12)
    ensures def == DAY_OF_WEEK ==> (def.minimum, def.maximum) == (0, 7)
  {
  }

  // ---- expressions -----------------------------------------------------------------------

  /** How many leading code points are not whitespace. */
  function WordLength(t: Text): (n: nat)
    ensures n <= |t| && (t != [] && !IsSpace(t[0]) ==> n >= 1)
  {
    if t == [] || IsSpace(t[0]) then 0 else 1 + WordLength(t[1..])
  }

  /** `t.split()` */
  function Words(t: Text): seq<Text>
    decreases |t|
  {
    var s := StripLeft(t);
    if s == [] then [] else [s[..WordLength(s)]] + Words(s[WordLength(s)..])
  }

  lemma {:induction false} StripsBlank(pad: Text, t: Text)
    requires IsBlank(pad) && (t == [] || !IsSpace(t[0]))
    ensures StripLeft(pad + t) == t
  {
    if pad == [] {
      assert pad + t == t;
    } else {
      assert (pad + t)[1..] == pad[1..] + t;
      StripsBlank(pad[1..], t);
    }
  }

  lemma {:induction false} WordEnds(w: Text, rest: Text)
    requires (forall c <- w :: !IsSpace(c)) && (rest == [] || IsSpace(rest[0]))
    ensures WordLength(w + rest) == |w|
  {
    if w == [] {
      assert w + rest == rest;
    } else {
      assert (w + rest)[1..] == w[1..] + rest;
      WordEnds(w[1..], rest);
    }
  }

  /** `text` is blanks, then a maximal run without any, then `rest`. */
  predicate LeadsWith(text: Text, pad: Text, w: Text, rest: Text) {
    && text == pad + w + rest
    && IsBlank(pad) && w != [] && (forall c <- w :: !IsSpace(c))
    && (rest == [] || IsSpace(rest[0]))
  }

  /** The words are the maximal runs without whitespace, in order. */
  lemma {:induction false} WordsCons(text: Text, pad: Text, w: Text, rest: Text)
    requires LeadsWith(text, pad, w, rest)
    ensures Words(text) == [w] + Words(rest)
  {
    assert pad + w + rest == pad + (w + rest);
    StripsBlank(pad, w + rest);
    WordEnds(w, rest);
    assert (w + rest)[..|w|] == w && (w + rest)[|w|..] == rest;
  }

  lemma {:induction false} WordsBlank(pad: Text)
    requires IsBlank(pad)
    ensures Words(pad) == []
  {
    StripsBlank(pad, []);
    assert pad + [] == pad;
  }

  ghost predicate ExpressionInGrammar(ws: seq<Text>) {
    && |ws| == 5
    && FieldInGrammar(ws[0], MINUTE) && FieldInGrammar(ws[1], HOUR)
    && FieldInGrammar(ws[2], DAY_OF_MONTH) && FieldInGrammar(ws[3], MONTH)
    && FieldInGrammar(ws[4], DAY_OF_WEEK)
  }

  ghost predicate Denotes(f: Field, text: Text, def: Definition) {
    (f.isStarred <==> '*' as int in text) && forall v :: v in f.values <==> FieldMeans(text, def, v)
  }

  lemma {:induction false} FieldParsed(text: Text, def: Definition, f: Field)
    requires IsField(def) && FieldInGrammar(text, def) && (f.isStarred <==> STAR in text)
    requires forall v :: v in f.values <==> FieldDenotes(text, def, v)
    ensures Denotes(f, text, def)
    ensures Within(f, def.minimum, if def == DAY_OF_WEEK then 6 else def.maximum)
  {
    forall v ensures v in f.values <==> FieldMeans(text, def, v) {
      DenotesIsMeans(text, def, v);
    }
    ParsedFieldWithin(text, def, f);
  }

  /** The schedules `parse_cron` can return. */
  predicate Parsed(s: Schedule) {
    && Within(s.minute, 0, 59) && Within(s.hour, 0, 23) && Within(s.dayOfMonth, 1, 31)
    && Within(s.month, 1, 12) && Within(s.dayOfWeek, 0, 6)
  }

  method ParseCron(expression: Text) returns (r: Option<Schedule>)
    ensures r.Some? <==> ExpressionInGrammar(Words(expression))
    ensures r.Some? ==>
              var ws, s := Words(expression), r.value;
              && Denotes(s.minute, ws[0], MINUTE) && Denotes(s.hour, ws[1], HOUR)
              && Denotes(s.dayOfMonth, ws[2], DAY_OF_MONTH) && Denotes(s.month, ws[3], MONTH)
              && Denotes(s.dayOfWeek, ws[4], DAY_OF_WEEK)
    ensures r.Some? ==> Parsed(r.value)
  {
    var fields := Words(expression);
    if |fields| != 5 {
      return None;
    }
    var minute := ParseField(fields[0], MINUTE);
    if minute.None? { return None; }
    var hour := ParseField(fields[1], HOUR);
    if hour.None? { return None; }
    var dayOfMonth := ParseField(fields[2], DAY_OF_MONTH);
    if dayOfMonth.None? { return None; }
    var month := ParseField(fields[3], MONTH);
    if month.None? { return None; }
    var dayOfWeek := ParseField(fields[4], DAY_OF_WEEK);
    if dayOfWeek.None? { return None; }
    FieldParsed(fields[0], MINUTE, minute.value);
    FieldParsed(fields[1], HOUR, hour.value);
    FieldParsed(fields[2], DAY_OF_MONTH, dayOfMonth.value);
    FieldParsed(fields[3], MONTH, month.value);
    FieldParsed(fields[4], DAY_OF_WEEK, dayOfWeek.value);
    return Some(Schedule(minute.value, hour.value, dayOfMonth.value, month.value, dayOfWeek.value));
  }
}
