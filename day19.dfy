/** Day 19: message rules. A rule is a single character or a list of alternatives, each a
    sequence of rule numbers. `validate` matches a prefix of a message: an alternative is
    tried rule by rule on what the earlier rules left, and the first alternative that
    matches wins, with no backtracking into it later. `as_re` writes a rule out as a
    regular expression with named groups, exporting each rule's group once. */
module Day19 {
  import opened Basics
  import opened Strings

  datatype RuleBody = CharRule(c: char) | RefRule(alts: seq<seq<int>>)

  /** A rule object: `CharRule` or `RefRule`, with the flag `as_re` sets on a `RefRule`. */
  class Rule {
    const n: int
    const body: RuleBody
    var isExported: bool

    constructor (n: int, body: RuleBody)
      ensures this.n == n && this.body == body && !isExported
    {
      this.n := n;
      this.body := body;
      isExported := false;
    }
  }

  /** The result of `validate`: a flag and a length, or the exception it raised. */
  datatype Outcome = Valid(ok: bool, len: nat) | KeyError(key: int) | RecursionError

  // ---------------------------------------------------------------------------
  // validate
  // ---------------------------------------------------------------------------

  /** `validate` of a rule on the message `c`, with `fuel` nested `RefRule` calls left
      before Python's recursion limit. A `CharRule` reports length 1 even when its
      character does not match. */
  function Validate(g: map<int, RuleBody>, body: RuleBody, c: string, fuel: nat): (o: Outcome)
    ensures o.Valid? && o.ok ==> o.len <= |c|
    decreases fuel, 0, 0
  {
    match body
    case CharRule(ch) => if c == [] then Valid(false, 0) else Valid(c[0] == ch, 1)
    case RefRule(alts) => if fuel == 0 then RecursionError else Alternatives(g, alts, c, fuel - 1)
  }

  /** The loop of `RefRule.validate`: the first alternative that matches. */
  function Alternatives(g: map<int, RuleBody>, alts: seq<seq<int>>, c: string, fuel: nat): (o: Outcome)
    ensures o.Valid? && o.ok ==> o.len <= |c|
    decreases fuel, 2, |alts|
  {
    if alts == [] then Valid(false, 0)
    else
      var o := Sequence(g, alts[0], c, fuel);
      if o.Valid? && !o.ok then Alternatives(g, alts[1..], c, fuel) else o
  }

  /** `validate_inner`: the rules of `rs` one after the other, each on what the ones before
      left; a failure reports `(False, 0)`. */
  function Sequence(g: map<int, RuleBody>, rs: seq<int>, c: string, fuel: nat): (o: Outcome)
    ensures o.Valid? && o.ok ==> o.len <= |c|
    ensures o.Valid? && !o.ok ==> o.len == 0
    decreases fuel, 1, |rs|
  {
    if rs == [] then Valid(true, 0)
    else if rs[0] !in g then KeyError(rs[0])
    else
      var first := Validate(g, g[rs[0]], c, fuel);
      if !first.Valid? then first
      else if !first.ok then Valid(false, 0)
      else
        var rest := Sequence(g, rs[1..], c[first.len..], fuel);
        if rest.Valid? && rest.ok then Valid(true, first.len + rest.len) else rest
  }

  /** Adds the length matched so far to a later success. */
  function After(tl: nat, o: Outcome): Outcome
  {
    if o.Valid? && o.ok then Valid(true, tl + o.len) else o
  }

  /** `validate` on a rule object. */
  method ValidateRule(g: map<int, RuleBody>, rule: RuleBody, c: string, fuel: nat) returns (o: Outcome)
    ensures o == Validate(g, rule, c, fuel)
    decreases fuel, 0
  {
    match rule
    case CharRule(ch) =>
      if c == [] {
        return Valid(false, 0);
      }
      return Valid(c[0] == ch, 1);
    case RefRule(alts) =>
      if fuel == 0 {
        return RecursionError;
      }
      for i := 0 to |alts|
        invariant Alternatives(g, alts, c, fuel - 1) == Alternatives(g, alts[i..], c, fuel - 1)
      {
        assert alts[i..][1..] == alts[i + 1..];
        o := ValidateInner(g, c, alts[i], fuel - 1);
        if !o.Valid? || o.ok {
          return o;
        }
      }
      return Valid(false, 0);
  }

  /** `validate_inner`: the loop that adds up the lengths and cuts the message. */
  method ValidateInner(g: map<int, RuleBody>, c: string, rs: seq<int>, fuel: nat) returns (o: Outcome)
    ensures o == Sequence(g, rs, c, fuel)
    decreases fuel, 1
  {
    var tl: nat := 0;
    var rest := c;
    for i := 0 to |rs|
      invariant Sequence(g, rs, c, fuel) == After(tl, Sequence(g, rs[i..], rest, fuel))
    {
      assert rs[i..][1..] == rs[i + 1..];
      if rs[i] !in g {
        return KeyError(rs[i]);
      }
      var r := ValidateRule(g, g[rs[i]], rest, fuel);
      if !r.Valid? {
        return r;
      }
      if !r.ok {
        return Valid(false, 0);
      }
      tl := tl + r.len;
      rest := rest[r.len..];
    }
    return Valid(true, tl);
  }

  // ---------------------------------------------------------------------------
  // What validate accepts
  // ---------------------------------------------------------------------------

  /** The grammar's own reading: `s` is derived from the rule, with at most `fuel` nested
      alternatives. */
  ghost predicate Derives(g: map<int, RuleBody>, body: RuleBody, s: string, fuel: nat)
    decreases fuel, 0
  {
    match body
    case CharRule(ch) => s == [ch]
    case RefRule(alts) =>
      fuel > 0 && exists i :: 0 <= i < |alts| && DerivesSeq(g, alts[i], s, fuel - 1)
  }

  /** `s` splits into pieces derived from the rules of `rs` in turn. */
  ghost predicate DerivesSeq(g: map<int, RuleBody>, rs: seq<int>, s: string, fuel: nat)
    decreases fuel, 1, |rs|
  {
    if rs == [] then s == []
    else
      rs[0] in g
      && exists k :: 0 <= k <= |s| && Derives(g, g[rs[0]], s[..k], fuel) && DerivesSeq(g, rs[1..], s[k..], fuel)
  }

  /** What `validate` matches is derived from the rule: the matcher is sound. */
  lemma {:induction false} ValidateSound(g: map<int, RuleBody>, body: RuleBody, c: string, fuel: nat)
    requires Validate(g, body, c, fuel).Valid? && Validate(g, body, c, fuel).ok
    ensures Derives(g, body, c[..Validate(g, body, c, fuel).len], fuel)
    decreases fuel, 0, 0
  {
    match body
    case CharRule(ch) =>
    case RefRule(alts) =>
      var i := AlternativesSound(g, alts, c, fuel - 1);
  }

  lemma {:induction false} AlternativesSound(g: map<int, RuleBody>, alts: seq<seq<int>>, c: string, fuel: nat)
    returns (i: nat)
    requires Alternatives(g, alts, c, fuel).Valid? && Alternatives(g, alts, c, fuel).ok
    ensures i < |alts| && DerivesSeq(g, alts[i], c[..Alternatives(g, alts, c, fuel).len], fuel)
    decreases fuel, 2, |alts|
  {
    var o := Sequence(g, alts[0], c, fuel);
    if o.Valid? && o.ok {
      SequenceSound(g, alts[0], c, fuel);
      i := 0;
    } else {
      var j := AlternativesSound(g, alts[1..], c, fuel);
      i := j + 1;
    }
  }

  lemma {:induction false} SequenceSound(g: map<int, RuleBody>, rs: seq<int>, c: string, fuel: nat)
    requires Sequence(g, rs, c, fuel).Valid? && Sequence(g, rs, c, fuel).ok
    ensures DerivesSeq(g, rs, c[..Sequence(g, rs, c, fuel).len], fuel)
    decreases fuel, 1, |rs|
  {
    if rs != [] {
      var first := Validate(g, g[rs[0]], c, fuel);
      var l1 := first.len;
      var rest := Sequence(g, rs[1..], c[l1..], fuel);
      var l := l1 + rest.len;
      ValidateSound(g, g[rs[0]], c, fuel);
      SequenceSound(g, rs[1..], c[l1..], fuel);
      assert c[..l][..l1] == c[..l1];
      assert c[..l][l1..] == c[l1..][..rest.len];
    }
  }

  /** The grammar `0: 1 3`, `1: 2 | 2 2`, `2: "a"`, `3: "b"`. */
  function Example(): map<int, RuleBody>
  {
    map[0 := RefRule([[1, 3]]), 1 := RefRule([[2], [2, 2]]), 2 := CharRule('a'), 3 := CharRule('b')]
  }

  /** The first alternative that matches is kept even when only a later one would let the
      rest of the rule match: rule 0 of `Example()` derives "aab", but `validate` takes
      "a" for rule 1 and then fails on rule 3. */
  lemma NoBacktracking()
    ensures Derives(Example(), Example()[0], "aab", 2)
    ensures Validate(Example(), Example()[0], "aab", 2) == Valid(false, 0)
  {
    ExampleDerives();
    ExampleFails();
  }

  lemma ExampleDerives()
    ensures Derives(Example(), Example()[0], "aab", 2)
  {
    var g := Example();
    ExampleRule1();
    assert Derives(g, g[3], "b", 1);
    DerivesSingle(g, 3, "b", 1);
    assert "aab"[..2] == "aa" && "aab"[2..] == "b" && [1, 3][1..] == [3];
    DerivesCons(g, [1, 3], "aab", 2, 1);
    DerivesAlternative(g, [[1, 3]], 0, "aab", 1);
  }

  /** Rule 1 of `Example()` derives "aa" through its second alternative. */
  lemma ExampleRule1()
    ensures Derives(Example(), Example()[1], "aa", 1)
  {
    var g := Example();
    assert Derives(g, g[2], "a", 0);
    DerivesSingle(g, 2, "a", 0);
    assert "aa"[..1] == "a" && "aa"[1..] == "a" && [2, 2][1..] == [2];
    DerivesCons(g, [2, 2], "aa", 1, 0);
    DerivesAlternative(g, [[2], [2, 2]], 1, "aa", 0);
  }

  /** A piece derived from a rule is derived from the sequence of that one rule. */
  lemma DerivesSingle(g: map<int, RuleBody>, r: int, s: string, fuel: nat)
    requires r in g && Derives(g, g[r], s, fuel)
    ensures DerivesSeq(g, [r], s, fuel)
  {
    assert s[..|s|] == s && s[|s|..] == [] && [r][1..] == [];
    assert DerivesSeq(g, [r][1..], s[|s|..], fuel);
  }

  /** A piece derived from the first rule followed by a piece derived from the rest is
      derived from the sequence. */
  lemma DerivesCons(g: map<int, RuleBody>, rs: seq<int>, s: string, k: nat, fuel: nat)
    requires rs != [] && rs[0] in g && k <= |s|
    requires Derives(g, g[rs[0]], s[..k], fuel) && DerivesSeq(g, rs[1..], s[k..], fuel)
    ensures DerivesSeq(g, rs, s, fuel)
  {
  }

  /** An alternative that derives `s` lets its rule derive `s`. */
  lemma DerivesAlternative(g: map<int, RuleBody>, alts: seq<seq<int>>, i: nat, s: string, fuel: nat)
    requires i < |alts| && DerivesSeq(g, alts[i], s, fuel)
    ensures Derives(g, RefRule(alts), s, fuel + 1)
  {
  }

  lemma ExampleFails()
    ensures Validate(Example(), Example()[0], "aab", 2) == Valid(false, 0)
  {
    var g := Example();
    assert Sequence(g, [2], "aab", 0) == Valid(true, 1) by {
      assert Validate(g, g[2], "aab", 0) == Valid(true, 1);
      assert Sequence(g, [], "ab", 0) == Valid(true, 0);
    }
    assert Validate(g, g[1], "aab", 1) == Valid(true, 1) by {
      assert Alternatives(g, [[2], [2, 2]], "aab", 0) == Valid(true, 1);
    }
    assert "aab"[1..] == "ab";
    assert Sequence(g, [3], "ab", 1) == Valid(false, 0) by {
      assert Validate(g, g[3], "ab", 1) == Valid(false, 1);
    }
    assert Sequence(g, [1, 3], "aab", 1) == Valid(false, 0) by {
      assert [1, 3][1..] == [3];
    }
    assert Alternatives(g, [], "aab", 1) == Valid(false, 0);
    assert Alternatives(g, [[1, 3]], "aab", 1) == Valid(false, 0) by {
      assert [[1, 3]][1..] == [];
    }
  }

  // ---------------------------------------------------------------------------
  // part1
  // ---------------------------------------------------------------------------

  /** `{r.n: r for r in rules}`: a later rule with the same number replaces an earlier
      one. */
  function RuleMap(rules: seq<Rule>): (m: map<int, Rule>)
    ensures forall i :: 0 <= i < |rules| ==> rules[i].n in m
    ensures forall k :: k in m ==> m[k].n == k && m[k] in rules
    ensures |rules| > 0 ==> m[rules[|rules| - 1].n] == rules[|rules| - 1]
  {
    if rules == [] then map[]
    else
      var init := rules[..|rules| - 1];
      var m := RuleMap(init);
      var last := rules[|rules| - 1];
      assert forall i :: 0 <= i < |rules| - 1 ==> init[i] == rules[i];
      assert forall x :: x in init ==> x in rules;
      m[last.n := last]
  }

  /** The rule bodies of a rule map. */
  function Bodies(rulemap: map<int, Rule>): (g: map<int, RuleBody>)
    ensures forall k :: k in g <==> k in rulemap
  {
    map k | k in rulemap :: rulemap[k].body
  }

  /** The exception an outcome carries, as the message of an error. */
  function Raised(o: Outcome): string
  {
    if o.KeyError? then "KeyError" else "RecursionError"
  }

  /** The lines from `lines` that rule 0 matches in full, counted in order; the first
      exception ends the count. */
  function CountMatches(g: map<int, RuleBody>, lines: seq<string>, fuel: nat): (r: Result<nat>)
    requires 0 in g
    ensures r.Ok? ==> r.value <= |lines|
  {
    if lines == [] then Ok(0)
    else
      var o := Validate(g, g[0], lines[0], fuel);
      if !o.Valid? then Err(Raised(o))
      else
        var rest := CountMatches(g, lines[1..], fuel);
        if rest.Err? then rest
        else Ok((if o.ok && o.len == |lines[0]| then 1 else 0) + rest.value)
  }

  function Part1Result(g: map<int, RuleBody>, inp: seq<string>, fuel: nat): Result<nat>
  {
    if 0 !in g then Err("KeyError") else CountMatches(g, inp, fuel)
  }

  /** Every line counted is derived from rule 0. */
  lemma {:induction false} CountedLinesDerive(g: map<int, RuleBody>, line: string, fuel: nat)
    requires 0 in g
    requires Validate(g, g[0], line, fuel) == Valid(true, |line|)
    ensures Derives(g, g[0], line, fuel)
  {
    ValidateSound(g, g[0], line, fuel);
    assert line[..|line|] == line;
  }

  function AddTo(t: nat, r: Result<nat>): Result<nat>
  {
    if r.Ok? then Ok(t + r.value) else r
  }

  /** part1: builds the rule map, takes rule 0 and counts the lines it matches in full. */
  method Part1(rules: seq<Rule>, inp: seq<string>, fuel: nat) returns (r: Result<nat>)
    ensures r == Part1Result(Bodies(RuleMap(rules)), inp, fuel)
  {
    var rulemap := RuleMap(rules);
    var g := Bodies(rulemap);
    if 0 !in rulemap {
      return Err("KeyError");
    }
    var ruleZero := rulemap[0];
    var total: nat := 0;
    for i := 0 to |inp|
      invariant CountMatches(g, inp, fuel) == AddTo(total, CountMatches(g, inp[i..], fuel))
    {
      assert inp[i..][1..] == inp[i + 1..];
      var o := ValidateRule(g, ruleZero.body, inp[i], fuel);
      if !o.Valid? {
        return Err(Raised(o));
      }
      if o.ok && o.len == |inp[i]| {
        total := total + 1;
      }
    }
    return Ok(total);
  }

  // ---------------------------------------------------------------------------
  // as_re
  // ---------------------------------------------------------------------------

  /** The `RefRule`s of the map that have not been exported yet. */
  function Unexported(rulemap: map<int, Rule>): set<Rule>
    reads rulemap.Values
  {
    set r | r in rulemap.Values && r.body.RefRule? && !r.isExported
  }

  /** `"".join(parts)`. */
  function Concat(parts: seq<string>): string
  {
    if parts == [] then [] else parts[0] + Concat(parts[1..])
  }

  /** The back-reference to an exported rule. */
  function Reference(n: int): string
  {
    "(?&rule_" + IntToString(n) + ")"
  }

  /** The named group that exports a rule, around the joined alternatives. */
  function Group(n: int, alts: seq<string>): string
  {
    "(?P<rule_" + IntToString(n) + ">" + Join(alts, '|') + ")"
  }

  /** `as_re`: a `CharRule` gives its character; an exported `RefRule` gives a reference
      to its group; any other `RefRule` is marked exported and gives its group, holding the
      regular expressions of its alternatives in order. A missing rule number raises
      `KeyError`. Flags are only ever set. */
  method AsRe(rulemap: map<int, Rule>, rule: Rule) returns (r: Result<string>)
    requires rule in rulemap.Values
    modifies rulemap.Values
    ensures forall x :: x in rulemap.Values && old(x.isExported) ==> x.isExported
    ensures Unexported(rulemap) <= old(Unexported(rulemap))
    ensures rule.body.CharRule? ==> r == Ok([rule.body.c]) && unchanged(rulemap.Values)
    ensures rule.body.RefRule? && old(rule.isExported) ==>
      r == Ok(Reference(rule.n)) && unchanged(rulemap.Values)
    ensures rule.body.RefRule? ==> rule.isExported
    ensures rule.body.RefRule? && !old(rule.isExported) && r.Ok? ==>
      exists alts :: |alts| == |rule.body.alts| && r.value == Group(rule.n, alts)
    decreases Unexported(rulemap), 0
  {
    match rule.body
    case CharRule(c) =>
      return Ok([c]);
    case RefRule(seqs) =>
      if rule.isExported {
        return Ok(Reference(rule.n));
      }
      ghost var before := Unexported(rulemap);
      rule.isExported := true;
      assert rule !in Unexported(rulemap) && rule in before;
      ghost var after := Unexported(rulemap);
      var alts: seq<string> := [];
      for i := 0 to |seqs|
        invariant |alts| == i && rule.isExported
        invariant forall x :: x in rulemap.Values && old(x.isExported) ==> x.isExported
        invariant Unexported(rulemap) <= after
      {
        var s := AsReInner(rulemap, seqs[i]);
        if s.Err? {
          return s;
        }
        alts := alts + [s.value];
      }
      return Ok(Group(rule.n, alts));
  }

  /** `as_re_inner`: the regular expressions of the rules of `s`, one after the other. */
  method AsReInner(rulemap: map<int, Rule>, s: seq<int>) returns (r: Result<string>)
    modifies rulemap.Values
    ensures forall x :: x in rulemap.Values && old(x.isExported) ==> x.isExported
    ensures Unexported(rulemap) <= old(Unexported(rulemap))
    ensures r.Ok? ==> exists parts :: |parts| == |s| && r.value == Concat(parts)
    ensures (exists i :: 0 <= i < |s| && s[i] !in rulemap) ==> r.Err?
    decreases Unexported(rulemap), 1
  {
    ghost var parts: seq<string> := [];
    var out: string := [];
    for i := 0 to |s|
      invariant |parts| == i && out == Concat(parts)
      invariant forall x :: x in rulemap.Values && old(x.isExported) ==> x.isExported
      invariant Unexported(rulemap) <= old(Unexported(rulemap))
      invariant forall j :: 0 <= j < i ==> s[j] in rulemap
    {
      if s[i] !in rulemap {
        return Err("KeyError");
      }
      var p := AsRe(rulemap, rulemap[s[i]]);
      if p.Err? {
        return p;
      }
      ConcatAppend(parts, p.value);
      parts := parts + [p.value];
      out := out + p.value;
    }
    return Ok(out);
  }

  lemma {:induction false} ConcatAppend(parts: seq<string>, p: string)
    ensures Concat(parts + [p]) == Concat(parts) + p
  {
    if parts != [] {
      assert (parts + [p])[1..] == parts[1..] + [p];
      ConcatAppend(parts[1..], p);
    }
  }

  // ---------------------------------------------------------------------------
  // part2: the rules rewritten and written out
  // ---------------------------------------------------------------------------

  /** What `as_re` promises for `rule`, given whether it was exported before the call: a
      `CharRule` gives its character, an exported `RefRule` a reference to its group, any
      other `RefRule` its group with one part per alternative. */
  ghost predicate AsReOf(rule: Rule, wasExported: bool, x: string)
  {
    match rule.body
    case CharRule(c) => x == [c]
    case RefRule(alts) =>
      if wasExported then x == Reference(rule.n)
      else exists parts: seq<string> :: |parts| == |alts| && x == Group(rule.n, parts)
  }

  /** part2 as far as the regular expression: rules 8 and 11 are replaced by their looping
      forms, every other rule number keeps its rule, and rule 0 is written out between `^`
      and `$`. */
  method Part2Regex(rules: seq<Rule>) returns (r: Result<string>, ghost rulemap: map<int, Rule>)
    modifies set x | x in rules
    ensures rulemap.Keys == RuleMap(rules).Keys + {8, 11}
    ensures rulemap[8].n == 8 && rulemap[8].body == RefRule([[42, 8], [42]])
    ensures rulemap[11].n == 11 && rulemap[11].body == RefRule([[42, 11, 31], [42, 31]])
    ensures forall k :: k in rulemap && k != 8 && k != 11 ==> rulemap[k] == RuleMap(rules)[k]
    ensures 0 !in RuleMap(rules) ==> r == Err("KeyError")
    ensures (forall k :: 0 <= k < |rules| ==> rules[k].n != 0) ==> r == Err("KeyError")
    ensures r.Ok? ==>
      0 in RuleMap(rules)
      && exists x :: r.value == "^" + x + "$" && AsReOf(rulemap[0], old(RuleMap(rules)[0].isExported), x)
  {
    var m := RuleMap(rules);
    var eight := new Rule(8, RefRule([[42, 8], [42]]));
    var eleven := new Rule(11, RefRule([[42, 11, 31], [42, 31]]));
    m := m[8 := eight][11 := eleven];
    rulemap := m;
    if 0 !in m {
      return Err("KeyError"), rulemap;
    }
    var zero := m[0];
    var re := AsRe(m, zero);
    if re.Err? {
      return re, rulemap;
    }
    assert AsReOf(zero, old(zero.isExported), re.value);
    return Ok("^" + re.value + "$"), rulemap;
  }

  // ---------------------------------------------------------------------------
  // parse_rule
  // ---------------------------------------------------------------------------

  /** `[int(y) for y in ys]`. */
  function ParseInts(ys: seq<string>): (r: Option<seq<int>>)
    ensures r.Some? <==> forall i :: 0 <= i < |ys| ==> ParseInt(ys[i]).Some?
    ensures r.Some? ==> |r.value| == |ys| && forall i :: 0 <= i < |ys| ==> ParseInt(ys[i]) == Some(r.value[i])
  {
    MapAll(ParseInt, ys)
  }

  /** One alternative: the piece stripped, split on spaces, each number parsed. */
  function ParseAlt(x: string): Option<seq<int>>
  {
    ParseInts(Split(Strip(x), ' '))
  }

  /** The alternatives: each piece between bars, stripped and split on spaces. */
  function ParseAlts(xs: seq<string>): (r: Option<seq<seq<int>>>)
    ensures r.Some? <==> forall i :: 0 <= i < |xs| ==> ParseAlt(xs[i]).Some?
    ensures r.Some? ==> |r.value| == |xs| && forall i :: 0 <= i < |xs| ==> ParseAlt(xs[i]) == Some(r.value[i])
  {
    MapAll(ParseAlt, xs)
  }

  /** `parse_rule`: the number before the colon; a quoted character, or alternatives of
      rule numbers, after it. A line without exactly one colon, a bad number or an empty
      right-hand side raises. */
  function ParseRule(line: string): Result<(int, RuleBody)>
  {
    var parts := Split(line, ':');
    if |parts| != 2 then Err("ValueError")
    else
      var n := ParseInt(Strip(parts[0]));
      if n.None? then Err("ValueError")
      else
        var body := ParseBody(Strip(parts[1]));
        if body.Err? then Err(body.msg) else Ok((n.value, body.value))
  }

  /** The stripped right-hand side: a quoted character, or alternatives of rule numbers. */
  function ParseBody(r: string): Result<RuleBody>
  {
    if r == [] then Err("IndexError")
    else if r[0] == '"' then
      if |r| < 2 then Err("IndexError") else Ok(CharRule(r[1]))
    else
      var alts := ParseAlts(Split(r, '|'));
      if alts.None? then Err("ValueError") else Ok(RefRule(alts.value))
  }


  /** A rule written as in the puzzle input, with the alternatives separated by a bare
      bar. */
  function RuleText(n: int, body: RuleBody): string
  {
    IntToString(n) + ": " + BodyText(body)
  }

  function BodyText(body: RuleBody): string
  {
    match body
    case CharRule(c) => "\"" + [c] + "\""
    case RefRule(alts) => Join(AltTexts(alts), '|')
  }

  function AltTexts(alts: seq<seq<int>>): (r: seq<string>)
    ensures |r| == |alts|
  {
    if alts == [] then [] else [AltText(alts[0])] + AltTexts(alts[1..])
  }

  function AltText(alt: seq<int>): string
  {
    Join(Numbers(alt), ' ')
  }

  function Numbers(alt: seq<int>): (r: seq<string>)
    ensures |r| == |alt|
    ensures forall i :: 0 <= i < |alt| ==> r[i] == IntToString(alt[i])
  {
    if alt == [] then [] else [IntToString(alt[0])] + Numbers(alt[1..])
  }

  /** A rule that can be written out: a character other than the colon, or at least one
      alternative, none of them empty. */
  predicate Writable(body: RuleBody)
  {
    match body
    case CharRule(c) => c != ':'
    case RefRule(alts) => |alts| >= 1 && forall i :: 0 <= i < |alts| ==> |alts[i]| >= 1
  }

  /** No character of a rule's text other than the one after the number is a colon, and
      the text of the right-hand side neither starts nor ends with a space. */
  lemma {:induction false} NumbersChars(alt: seq<int>, ch: char)
    requires ch in AltText(alt)
    ensures ch == ' ' || ch == '-' || IsDigit(ch)
  {
    JoinChars(Numbers(alt), ' ', ch);
    if ch != ' ' {
      var i :| 0 <= i < |alt| && ch in Numbers(alt)[i];
      IntToStringChars(alt[i]);
    }
  }

  lemma {:induction false} AltTextsChars(alts: seq<seq<int>>, ch: char)
    requires ch in Join(AltTexts(alts), '|')
    ensures ch == '|' || ch == ' ' || ch == '-' || IsDigit(ch)
  {
    JoinChars(AltTexts(alts), '|', ch);
    if ch != '|' {
      var i :| 0 <= i < |alts| && ch in AltTexts(alts)[i];
      assert AltTexts(alts)[i] == AltText(alts[i]) by {
        AltTextsAt(alts, i);
      }
      NumbersChars(alts[i], ch);
    }
  }

  lemma {:induction false} AltTextsAt(alts: seq<seq<int>>, i: nat)
    requires i < |alts|
    ensures AltTexts(alts)[i] == AltText(alts[i])
  {
    if i > 0 {
      AltTextsAt(alts[1..], i - 1);
    }
  }

  /** An alternative's text starts and ends with a digit or a minus sign. */
  lemma AltTextEnds(alt: seq<int>)
    requires |alt| >= 1
    ensures var t := AltText(alt);
      (|t| >= 1 && !IsSpace(t[0]) && !IsSpace(t[|t| - 1]) && t[0] != '"' && t[0] != '|' && t[|t| - 1] != '|')
  {
    JoinStartsWithFirst(Numbers(alt), ' ');
    JoinEndsWithLast(Numbers(alt), ' ');
    IntToStringChars(alt[0]);
    IntToStringChars(alt[|alt| - 1]);
  }

  /** Parsing the pieces of the alternatives' texts gives back the alternatives. */
  lemma ParseAltsTexts(alts: seq<seq<int>>)
    requires forall i :: 0 <= i < |alts| ==> |alts[i]| >= 1
    ensures ParseAlts(AltTexts(alts)) == Some(alts)
  {
    var ts := AltTexts(alts);
    forall i | 0 <= i < |alts|
      ensures ParseAlt(ts[i]) == Some(alts[i])
    {
      AltTextsAt(alts, i);
      ParseAltText(alts[i]);
    }
    MapAllPointwise(ParseAlt, ts, alts);
  }

  /** One alternative's text, stripped, split on spaces and parsed, gives the
      alternative. */
  lemma ParseAltText(alt: seq<int>)
    requires |alt| >= 1
    ensures ParseAlt(AltText(alt)) == Some(alt)
  {
    var t := AltText(alt);
    AltTextEnds(alt);
    StripUnchanged(t, IsSpace);
    assert Strip(t) == t;
    forall i | 0 <= i < |alt|
      ensures ' ' !in Numbers(alt)[i]
    {
      IntToStringChars(alt[i]);
    }
    SplitJoin(Numbers(alt), ' ');
    ParseNumbers(alt);
  }

  lemma ParseNumbers(alt: seq<int>)
    ensures ParseInts(Numbers(alt)) == Some(alt)
  {
    forall i | 0 <= i < |alt|
      ensures ParseInt(Numbers(alt)[i]) == Some(alt[i])
    {
      ParseIntToString(alt[i]);
    }
    MapAllPointwise(ParseInt, Numbers(alt), alt);
  }

  /** Stripping a space put in front of a text that does not start or end with one gives
      the text back. */
  lemma StripLeadingSpace(t: string)
    requires |t| >= 1 && !IsSpace(t[0]) && !IsSpace(t[|t| - 1])
    ensures Strip(" " + t) == t
  {
    var s := " " + t;
    assert s[|s| - 1] == t[|t| - 1];
    assert RStripBy(s, IsSpace) == s;
    assert IsSpace(s[0]) && s[1..] == t;
    assert LStripBy(s, IsSpace) == LStripBy(t, IsSpace);
    assert LStripBy(t, IsSpace) == t;
  }

  /** The text of a rule's right-hand side has no colon, is not empty, and neither starts
      nor ends with a space. */
  lemma BodyTextShape(body: RuleBody)
    requires Writable(body)
    ensures var b := BodyText(body);
      (':' !in b && |b| >= 1 && !IsSpace(b[0]) && !IsSpace(b[|b| - 1]))
  {
    match body
    case CharRule(c) =>
      assert BodyText(body) == ['"', c, '"'];
    case RefRule(alts) =>
      RefTextShape(alts);
  }

  lemma RefTextShape(alts: seq<seq<int>>)
    requires Writable(RefRule(alts))
    ensures var b := Join(AltTexts(alts), '|');
      (':' !in b && |b| >= 1 && !IsSpace(b[0]) && !IsSpace(b[|b| - 1]))
  {
    RefTextNoColon(alts);
    RefTextStart(alts);
    RefTextEnd(alts);
  }

  lemma RefTextNoColon(alts: seq<seq<int>>)
    ensures ':' !in Join(AltTexts(alts), '|')
  {
    if ':' in Join(AltTexts(alts), '|') {
      AltTextsChars(alts, ':');
    }
  }

  lemma RefTextStart(alts: seq<seq<int>>)
    requires Writable(RefRule(alts))
    ensures var b := Join(AltTexts(alts), '|'); |b| >= 1 && !IsSpace(b[0]) && b[0] != '"'
  {
    AltTextsAt(alts, 0);
    AltTextEnds(alts[0]);
    JoinStartsWithFirst(AltTexts(alts), '|');
  }

  lemma RefTextEnd(alts: seq<seq<int>>)
    requires Writable(RefRule(alts))
    ensures var b := Join(AltTexts(alts), '|'); |b| >= 1 && !IsSpace(b[|b| - 1])
  {
    var k := |alts| - 1;
    AltTextsAt(alts, k);
    AltTextEnds(alts[k]);
    JoinEndNotSpace(AltTexts(alts), '|');
  }

  /** A join ends with the last character of its last piece. */
  lemma JoinEndNotSpace(xs: seq<string>, sep: char)
    requires |xs| >= 1 && |xs[|xs| - 1]| >= 1 && !IsSpace(xs[|xs| - 1][|xs[|xs| - 1]| - 1])
    ensures var j := Join(xs, sep); |j| >= 1 && !IsSpace(j[|j| - 1])
  {
    JoinEndsWithLast(xs, sep);
  }

  /** The alternatives' text, split on bars and parsed, gives the alternatives; it does not
      start with a quote. */
  lemma ParseRefText(alts: seq<seq<int>>)
    requires Writable(RefRule(alts))
    ensures var b := Join(AltTexts(alts), '|');
      (|b| >= 1 && b[0] != '"' && ParseAlts(Split(b, '|')) == Some(alts))
  {
    RefTextStart(alts);
    forall i | 0 <= i < |alts|
      ensures '|' !in AltTexts(alts)[i]
    {
      AltTextsAt(alts, i);
      if '|' in AltText(alts[i]) {
        NumbersChars(alts[i], '|');
      }
    }
    SplitJoin(AltTexts(alts), '|');
    ParseAltsTexts(alts);
  }

  /** The colon after the number is the only one in a rule's text. */
  lemma RuleTextSplit(n: int, body: RuleBody)
    requires Writable(body)
    ensures Split(RuleText(n, body), ':') == [IntToString(n), " " + BodyText(body)]
  {
    assert ':' !in IntToString(n) by {
      IntToStringChars(n);
    }
    assert ':' !in BodyText(body) by {
      BodyTextShape(body);
    }
    SplitRuleLine(IntToString(n), BodyText(body));
  }

  /** A number and a right-hand side without colons, joined by ": ", split back apart. */
  lemma SplitRuleLine(num: string, b: string)
    requires ':' !in num && ':' !in b
    ensures Split(num + ": " + b, ':') == [num, " " + b]
  {
    assert num + ": " + b == num + [':'] + (" " + b);
    SplitOnce(num, " " + b, ':');
  }


  /** `parse_rule` reads back what `RuleText` writes. */
  lemma ParseRuleText(n: int, body: RuleBody)
    requires Writable(body)
    ensures ParseRule(RuleText(n, body)) == Ok((n, body))
  {
    var num := IntToString(n);
    var b := BodyText(body);
    RuleTextSplit(n, body);
    assert ParseInt(Strip(num)) == Some(n) by {
      StripUnchanged(num, IsSpace);
      ParseIntToString(n);
    }
    assert Strip(" " + b) == b by {
      BodyTextShape(body);
      StripLeadingSpace(b);
    }
    ParseBodyText(body);
  }

  /** The right-hand side of a written rule parses back to the rule. */
  lemma ParseBodyText(body: RuleBody)
    requires Writable(body)
    ensures ParseBody(BodyText(body)) == Ok(body)
  {
    match body
    case CharRule(c) =>
      assert BodyText(body) == ['"', c, '"'];
    case RefRule(alts) =>
      ParseRefText(alts);
  }

}
