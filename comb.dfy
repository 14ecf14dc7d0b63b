/** The parser-combinator engine (comb.py).

    A parser is a deterministic function from a cursor (`View`) to a reply
    `(success, view, value)`. Python builds parsers as closures; here the parsers
    are a datatype (`Parser`) and `Run` is their meaning. `Exec` runs a parser
    with the loops of the Python code and is proved to agree with `Run`.

    `kleene` and `take_until` loop forever in Python when their inner parser
    succeeds without moving the cursor: the parser is deterministic, so the
    next round sees the same view and does the same thing. `Run` reports exactly
    that case as `Diverges`, so it needs no fuel. */
module Comb {
  import opened Basics
  import opened Strings

  /** StringView: the whole input and a read position. */
  datatype View = View(s: string, idx: int)
  {
    predicate Valid()
    {
      0 <= idx <= |s|
    }

    predicate AtEnd()
    {
      idx == |s|
    }

    function Peek(): (c: Option<char>)
      requires Valid()
      ensures c.None? <==> AtEnd()
      ensures c.Some? ==> c.value == s[idx]
    {
      if AtEnd() then None else Some(s[idx])
    }

    /** At the end: failure and this same view. Otherwise: success, a new view one
        character further over the same text, and the character that was read.
        The receiver is a value, so it is never changed. */
    function Next(): (r: Reply)
      requires Valid()
      ensures r.view.Valid() && r.view.s == s
      ensures !r.success <==> AtEnd()
      ensures !r.success ==> r.view == this && r.value == Nothing
      ensures r.success ==> r.view.idx == idx + 1 && r.value == Char(s[idx])
    {
      if AtEnd() then Reply(false, this, Nothing) else Reply(true, View(s, idx + 1), Char(s[idx]))
    }
  }

  /** The values parsers produce: Python's `None`, a character, a string, an `int`
      or a list. */
  datatype Value = Nothing | Char(c: char) | Str(t: string) | Int(n: nat) | List(items: seq<Value>)

  /** ParserResult: `(success, view, value)`. */
  datatype Reply = Reply(success: bool, view: View, value: Value)

  /** What running a parser does: it returns a reply, or it never returns. */
  datatype Outcome = Halts(reply: Reply) | Diverges

  /** The parsers comb.py builds directly against the view. */
  datatype Primitive =
    | CharFits(pred: char -> bool)             // char_fits_predicate(pred)
    | AnyChar                                  // any_char()
    | ConsumeString(t: string)                 // consume_string(t)
    | ReadInteger                              // read_integer()
    | ConsumeWhitespace                        // consume_whitespace()

  /** The parsers comb.py can build: primitives and the combinators over them. */
  datatype Parser =
    | Prim(prim: Primitive)
    | TryParsers(alts: seq<Parser>)            // try_parsers(*alts)
    | Kleene(p: Parser)                        // kleene(p)
    | Optional(p: Parser)                      // optional(p)
    | TakeUntil(taker: Parser, untiller: Parser)  // take_until(taker, untiller)
    | Generated(steps: seq<Parser>, finish: seq<Value> -> Value)
      // parser_generator: the parsers the generator yields, in order, and the value it
      // returns as a function of the values sent back to it

  /** is_char(c) */
  function IsChar(c: char): Parser
  {
    Prim(CharFits(x => x == c))
  }

  /** is_whitespace() */
  function IsWhitespace(): Parser
  {
    Prim(CharFits(IsSpace))
  }

  /** consume_any_string(*ts): ordered choice between the literals. */
  function ConsumeAnyString(ts: seq<string>): (p: Parser)
    ensures p.TryParsers? && |p.alts| == |ts|
    ensures forall i :: 0 <= i < |ts| ==> p.alts[i] == Prim(ConsumeString(ts[i]))
  {
    TryParsers(seq(|ts|, i requires 0 <= i < |ts| => Prim(ConsumeString(ts[i]))))
  }

  /** parser_generator returns a zero-argument function that gives the parser. */
  function ParserGenerator(steps: seq<Parser>, finish: seq<Value> -> Value): (thunk: () -> Parser)
    ensures thunk().Generated? && thunk().steps == steps && thunk().finish == finish
  {
    () => Generated(steps, finish)
  }

  // ---------------------------------------------------------------------------
  // Meaning of the parsers. The loops of comb.py are the recursive functions
  // *From below; each call is one round of the Python loop.
  // ---------------------------------------------------------------------------

  /** A reply that stays on the text of `v` and does not move before it. */
  predicate Forward(v: View, r: Reply)
  {
    r.view.s == v.s && v.idx <= r.view.idx <= |v.s|
  }

  /** What a primitive returns; primitives always return. */
  function PrimReply(pr: Primitive, v: View): (r: Reply)
    requires v.Valid()
    ensures Forward(v, r)
  {
    match pr
    case CharFits(pred) => CharFitsReply(pred, v)
    case AnyChar => v.Next()
    case ConsumeString(t) => ConsumeStringFrom(t, 0, v, v)
    case ReadInteger => ReadIntegerFrom(v, v, [])
    case ConsumeWhitespace => WhitespaceFrom(v, v)
  }

  function CharFitsReply(pred: char -> bool, v: View): (r: Reply)
    requires v.Valid()
    ensures Forward(v, r)
  {
    var n := v.Next();
    if !n.success || !pred(n.value.c) then Reply(false, v, Nothing) else n
  }

  /** Round `k` of the `for wanted_char in to_consume` loop. */
  function ConsumeStringFrom(t: string, k: nat, orig: View, v: View): (r: Reply)
    requires k <= |t| && orig.Valid() && v.Valid() && Forward(orig, Reply(true, v, Nothing))
    ensures Forward(orig, r)
    decreases |t| - k
  {
    if k == |t| then Reply(true, v, Str(t))
    else
      var n := v.Next();
      if !n.success || t[k] != n.value.c then Reply(false, orig, Nothing)
      else ConsumeStringFrom(t, k + 1, orig, n.view)
  }

  /** One round of read_integer's loop; `digits` is `so_far`. */
  function ReadIntegerFrom(orig: View, v: View, digits: string): (r: Reply)
    requires orig.Valid() && v.Valid() && Forward(orig, Reply(true, v, Nothing)) && AllDigits(digits)
    ensures Forward(orig, r)
    decreases |v.s| - v.idx
  {
    var n := v.Next();
    if !n.success && digits == [] then Reply(false, orig, Nothing)
    else if !n.success || !IsDigit(n.value.c) then
      if digits != [] then Reply(true, v, Int(DecimalValue(digits))) else Reply(false, v, Nothing)
    else ReadIntegerFrom(orig, n.view, digits + [n.value.c])
  }

  /** One round of consume_whitespace's loop. */
  function WhitespaceFrom(orig: View, v: View): (r: Reply)
    requires orig.Valid() && v.Valid() && Forward(orig, Reply(true, v, Nothing))
    ensures Forward(orig, r)
    decreases |v.s| - v.idx
  {
    var n := v.Next();
    if !n.success then Reply(false, orig, Nothing)
    else if !IsSpace(n.value.c) then Reply(true, v, Nothing)
    else WhitespaceFrom(orig, n.view)
  }

  /** Every parser only moves forward over the same text. */
  function Run(p: Parser, v: View): (o: Outcome)
    requires v.Valid()
    ensures o.Halts? ==> Forward(v, o.reply)
    decreases p, 1, 0, 0
  {
    match p
    case Prim(pr) => Halts(PrimReply(pr, v))
    case TryParsers(alts) => TryFrom(alts, 0, v)
    case Kleene(q) => KleeneFrom(q, v, [])
    case Optional(q) =>
      (match Run(q, v)
       case Diverges => Diverges
       case Halts(r) => if r.success then Halts(r) else Halts(Reply(true, v, Nothing)))
    case TakeUntil(t, u) => TakeUntilFrom(t, u, v, [])
    case Generated(steps, finish) => GeneratedFrom(steps, finish, 0, v, v, [])
  }

  /** try_parsers from alternative `k` on: every alternative runs on the original view. */
  function TryFrom(alts: seq<Parser>, k: nat, v: View): (o: Outcome)
    requires k <= |alts| && v.Valid()
    ensures o.Halts? ==> Forward(v, o.reply)
    decreases TryParsers(alts), 0, |alts| - k, 0
  {
    if k == |alts| then Halts(Reply(false, v, Nothing))
    else
      match Run(alts[k], v)
      case Diverges => Diverges
      case Halts(r) => if r.success then Halts(r) else TryFrom(alts, k + 1, v)
  }

  /** One round of kleene's loop; `acc` is `result`. */
  function KleeneFrom(q: Parser, v: View, acc: seq<Value>): (o: Outcome)
    requires v.Valid()
    ensures o.Halts? ==> Forward(v, o.reply)
    decreases Kleene(q), 0, |v.s| - v.idx, 0
  {
    match Run(q, v)
    case Diverges => Diverges
    case Halts(r) =>
      if !r.success then Halts(Reply(true, v, List(acc)))
      else if r.view.idx == v.idx then Diverges
      else KleeneFrom(q, r.view, acc + [r.value])
  }

  /** One round of take_until's loop, up to the untiller's verdict; `acc` is `result`. */
  function TakeUntilFrom(t: Parser, u: Parser, v: View, acc: seq<Value>): (o: Outcome)
    requires v.Valid()
    ensures o.Halts? ==> Forward(v, o.reply)
    decreases TakeUntil(t, u), 0, |v.s| - v.idx, 1
  {
    match Run(u, v)
    case Diverges => Diverges
    case Halts(ru) => if ru.success then Halts(Reply(true, v, List(acc))) else TakeStep(t, u, v, acc)
  }

  /** The rest of the round, once the untiller has failed: run the taker. */
  function TakeStep(t: Parser, u: Parser, v: View, acc: seq<Value>): (o: Outcome)
    requires v.Valid()
    ensures o.Halts? ==> Forward(v, o.reply)
    decreases TakeUntil(t, u), 0, |v.s| - v.idx, 0
  {
    match Run(t, v)
    case Diverges => Diverges
    case Halts(rt) =>
      if !rt.success then Halts(Reply(false, v, Nothing))
      else if rt.view.idx == v.idx then Diverges
      else TakeUntilFrom(t, u, rt.view, acc + [rt.value])
  }

  /** parser_generator's driver loop from step `k` on, with the values sent back so far. */
  function GeneratedFrom(steps: seq<Parser>, finish: seq<Value> -> Value, k: nat,
                         orig: View, v: View, vals: seq<Value>): (o: Outcome)
    requires k <= |steps| && orig.Valid() && v.Valid() && Forward(orig, Reply(true, v, Nothing))
    ensures o.Halts? ==> Forward(orig, o.reply)
    decreases Generated(steps, finish), 0, |steps| - k, 0
  {
    if k == |steps| then Halts(Reply(true, v, finish(vals)))
    else
      match Run(steps[k], v)
      case Diverges => Diverges
      case Halts(r) =>
        if !r.success then Halts(Reply(false, orig, Nothing))
        else GeneratedFrom(steps, finish, k + 1, orig, r.view, vals + [r.value])
  }

  /** run_parser: call the thunk, run the parser from position 0, keep the value on success. */
  function RunParser(parser: () -> Parser, inp: string): (r: Option<Value>)
    requires Run(parser(), View(inp, 0)).Halts?
    ensures var o := Run(parser(), View(inp, 0)).reply;
            (r.Some? <==> o.success) && (r.Some? ==> r.value == o.value)
  {
    var o := Run(parser(), View(inp, 0)).reply;
    if o.success then Some(o.value) else None
  }

  // ---------------------------------------------------------------------------
  // Properties of the primitives
  // ---------------------------------------------------------------------------

  /** The parser halts and fails. */
  predicate FailsAt(p: Parser, v: View)
    requires v.Valid()
  {
    Run(p, v).Halts? && !Run(p, v).reply.success
  }

  /** char_fits_predicate: one character on success; at the end, or when the predicate
      rejects the character, failure with the original view. */
  lemma CharFitsSpec(pred: char -> bool, v: View)
    requires v.Valid()
    ensures Run(Prim(CharFits(pred)), v) ==
      if v.idx < |v.s| && pred(v.s[v.idx]) then Halts(Reply(true, View(v.s, v.idx + 1), Char(v.s[v.idx])))
      else Halts(Reply(false, v, Nothing))
  {
  }

  /** is_char(c) accepts exactly `c`. */
  lemma IsCharSpec(c: char, v: View)
    requires v.Valid()
    ensures Run(IsChar(c), v) ==
      if v.idx < |v.s| && v.s[v.idx] == c then Halts(Reply(true, View(v.s, v.idx + 1), Char(c)))
      else Halts(Reply(false, v, Nothing))
  {
  }

  /** any_char: one character, or failure with the original view at the end. */
  lemma AnyCharSpec(v: View)
    requires v.Valid()
    ensures Run(Prim(AnyChar), v) ==
      if v.idx < |v.s| then Halts(Reply(true, View(v.s, v.idx + 1), Char(v.s[v.idx])))
      else Halts(Reply(false, v, Nothing))
  {
  }

  lemma {:induction false} ConsumeStringFromSpec(t: string, k: nat, orig: View, v: View)
    requires k <= |t| && orig.Valid() && v.Valid()
    requires v.s == orig.s && v.idx == orig.idx + k
    requires orig.s[orig.idx..v.idx] == t[..k]
    ensures var r := ConsumeStringFrom(t, k, orig, v);
      && (r.success <==> orig.idx + |t| <= |orig.s| && orig.s[orig.idx..orig.idx + |t|] == t)
      && (r.success ==> r == Reply(true, View(orig.s, orig.idx + |t|), Str(t)))
      && (!r.success ==> r == Reply(false, orig, Nothing))
    decreases |t| - k
  {
    if k == |t| {
      assert t[..k] == t;
    } else {
      var n := v.Next();
      if n.success && t[k] == n.value.c {
        assert orig.s[orig.idx..n.view.idx] == orig.s[orig.idx..v.idx] + [orig.s[v.idx]];
        assert t[..k + 1] == t[..k] + [t[k]];
        ConsumeStringFromSpec(t, k + 1, orig, n.view);
      } else if orig.idx + |t| <= |orig.s| {
        assert orig.s[orig.idx..orig.idx + |t|][k] == orig.s[v.idx] != t[k];
      }
    }
  }

  /** consume_string(t) succeeds iff `t` is next in the input, then moves exactly `|t|`
      and returns `t`; on a mismatch or at the end it returns the original view. */
  lemma ConsumeStringSpec(t: string, v: View)
    requires v.Valid()
    ensures Run(Prim(ConsumeString(t)), v).Halts?
    ensures var r := Run(Prim(ConsumeString(t)), v).reply;
      && (r.success <==> v.idx + |t| <= |v.s| && v.s[v.idx..v.idx + |t|] == t)
      && (r.success ==> r == Reply(true, View(v.s, v.idx + |t|), Str(t)))
      && (!r.success ==> r == Reply(false, v, Nothing))
  {
    ConsumeStringFromSpec(t, 0, v, v);
  }

  /** `s[i..j]` is a maximal, non-empty run of digits. */
  predicate DigitRun(s: string, i: int, j: int)
  {
    0 <= i < j <= |s| && AllDigits(s[i..j]) && (j == |s| || !IsDigit(s[j]))
  }

  lemma {:induction false} ReadIntegerFromSpec(orig: View, v: View, digits: string)
    requires orig.Valid() && v.Valid() && v.s == orig.s && orig.idx <= v.idx
    requires digits == orig.s[orig.idx..v.idx] && AllDigits(digits)
    ensures var r := ReadIntegerFrom(orig, v, digits);
      && (r.success <==> orig.idx < |orig.s| && IsDigit(orig.s[orig.idx]))
      && (!r.success ==> r == Reply(false, orig, Nothing))
      && (r.success ==> r.view.s == orig.s && DigitRun(orig.s, orig.idx, r.view.idx)
                        && r.value == Int(DecimalValue(orig.s[orig.idx..r.view.idx])))
    decreases |v.s| - v.idx
  {
    var n := v.Next();
    if digits == [] {
      assert v == orig;
    } else {
      assert orig.s[orig.idx] == digits[0];
    }
    if n.success && IsDigit(n.value.c) {
      assert orig.s[orig.idx..n.view.idx] == digits + [n.value.c];
      ReadIntegerFromSpec(orig, n.view, digits + [n.value.c]);
    }
  }

  /** read_integer succeeds iff a digit is next; it consumes the maximal digit run and
      returns its decimal value; on failure the view is the input view. */
  lemma ReadIntegerSpec(v: View)
    requires v.Valid()
    ensures Run(Prim(ReadInteger), v).Halts?
    ensures var r := Run(Prim(ReadInteger), v).reply;
      && (r.success <==> v.idx < |v.s| && IsDigit(v.s[v.idx]))
      && (!r.success ==> r == Reply(false, v, Nothing))
      && (r.success ==> r.view.s == v.s && DigitRun(v.s, v.idx, r.view.idx)
                        && r.value == Int(DecimalValue(v.s[v.idx..r.view.idx])))
  {
    ReadIntegerFromSpec(v, v, []);
  }

  lemma {:induction false} WhitespaceFromSpec(orig: View, v: View)
    requires orig.Valid() && v.Valid() && v.s == orig.s && orig.idx <= v.idx
    requires forall j :: orig.idx <= j < v.idx ==> IsSpace(orig.s[j])
    ensures var r := WhitespaceFrom(orig, v);
      && (!r.success ==> r == Reply(false, orig, Nothing)
                         && forall j :: orig.idx <= j < |orig.s| ==> IsSpace(orig.s[j]))
      && (r.success ==> r.value == Nothing && r.view.s == orig.s && r.view.idx < |orig.s|
                        && !IsSpace(orig.s[r.view.idx])
                        && forall j :: orig.idx <= j < r.view.idx ==> IsSpace(orig.s[j]))
    decreases |v.s| - v.idx
  {
    var n := v.Next();
    if n.success && IsSpace(n.value.c) {
      WhitespaceFromSpec(orig, n.view);
    }
  }

  /** consume_whitespace stops at the first non-whitespace character; if only whitespace
      is left (also when nothing is left) it fails with the original view. */
  lemma WhitespaceSpec(v: View)
    requires v.Valid()
    ensures Run(Prim(ConsumeWhitespace), v).Halts?
    ensures var r := Run(Prim(ConsumeWhitespace), v).reply;
      && (!r.success ==> r == Reply(false, v, Nothing)
                         && forall j :: v.idx <= j < |v.s| ==> IsSpace(v.s[j]))
      && (r.success ==> r.value == Nothing && r.view.s == v.s && r.view.idx < |v.s|
                        && !IsSpace(v.s[r.view.idx])
                        && forall j :: v.idx <= j < r.view.idx ==> IsSpace(v.s[j]))
  {
    WhitespaceFromSpec(v, v);
  }

  /** consume_whitespace fails at the end of the input, the empty input included. */
  lemma WhitespaceFailsAtEnd(s: string)
    ensures Run(Prim(ConsumeWhitespace), View(s, |s|)) == Halts(Reply(false, View(s, |s|), Nothing))
  {
    WhitespaceSpec(View(s, |s|));
  }

  // ---------------------------------------------------------------------------
  // Properties of the combinators
  // ---------------------------------------------------------------------------

  lemma {:induction false} TryFromSpec(alts: seq<Parser>, k: nat, v: View)
    requires k <= |alts| && v.Valid()
    ensures forall m :: (k <= m < |alts| && (forall j :: k <= j < m ==> FailsAt(alts[j], v))
                         && !FailsAt(alts[m], v)) ==> TryFrom(alts, k, v) == Run(alts[m], v)
    ensures (forall j :: k <= j < |alts| ==> FailsAt(alts[j], v))
            ==> TryFrom(alts, k, v) == Halts(Reply(false, v, Nothing))
    ensures TryFrom(alts, k, v).Halts? && !TryFrom(alts, k, v).reply.success
            ==> TryFrom(alts, k, v).reply == Reply(false, v, Nothing)
    decreases |alts| - k
  {
    if k < |alts| {
      TryFromSpec(alts, k + 1, v);
      if FailsAt(alts[k], v) {
        assert TryFrom(alts, k, v) == TryFrom(alts, k + 1, v);
      } else {
        assert TryFrom(alts, k, v) == Run(alts[k], v);
      }
    }
  }

  /** try_parsers is ordered choice: every alternative runs on the original view, the
      first one that does not fail decides, and when all fail the result is failure with
      the original view. */
  lemma TryParsersSpec(alts: seq<Parser>, v: View)
    requires v.Valid()
    ensures forall m :: (0 <= m < |alts| && (forall j :: 0 <= j < m ==> FailsAt(alts[j], v))
                         && !FailsAt(alts[m], v)) ==> Run(TryParsers(alts), v) == Run(alts[m], v)
    ensures (forall j :: 0 <= j < |alts| ==> FailsAt(alts[j], v))
            ==> Run(TryParsers(alts), v) == Halts(Reply(false, v, Nothing))
    ensures FailsAt(TryParsers(alts), v) ==> Run(TryParsers(alts), v).reply == Reply(false, v, Nothing)
  {
    TryFromSpec(alts, 0, v);
  }

  /** When the first alternative succeeds, try_parsers returns its result, whatever the
      second one would do. */
  lemma OrderedChoice(p1: Parser, p2: Parser, v: View)
    requires v.Valid() && Run(p1, v).Halts? && Run(p1, v).reply.success
    ensures Run(TryParsers([p1, p2]), v) == Run(p1, v)
  {
    TryParsersSpec([p1, p2], v);
  }

  /** consume_any_string returns the first literal that is next in the input. */
  lemma ConsumeAnyStringSpec(ts: seq<string>, m: nat, v: View)
    requires v.Valid() && m < |ts|
    requires v.idx + |ts[m]| <= |v.s| && v.s[v.idx..v.idx + |ts[m]|] == ts[m]
    requires forall j :: 0 <= j < m ==> !(v.idx + |ts[j]| <= |v.s| && v.s[v.idx..v.idx + |ts[j]|] == ts[j])
    ensures Run(ConsumeAnyString(ts), v) == Halts(Reply(true, View(v.s, v.idx + |ts[m]|), Str(ts[m])))
  {
    var p := ConsumeAnyString(ts);
    forall j | 0 <= j < m
      ensures FailsAt(p.alts[j], v)
    {
      ConsumeStringSpec(ts[j], v);
    }
    ConsumeStringSpec(ts[m], v);
    TryParsersSpec(p.alts, v);
  }

  /** Puts `acc` in front of the list a halting, list-valued outcome carries. */
  function WithPrefix(acc: seq<Value>, o: Outcome): Outcome
  {
    match o
    case Halts(Reply(b, w, List(xs))) => Halts(Reply(b, w, List(acc + xs)))
    case _ => o
  }

  lemma WithPrefixTwice(a: seq<Value>, b: seq<Value>, o: Outcome)
    ensures WithPrefix(a, WithPrefix(b, o)) == WithPrefix(a + b, o)
  {
    match o
    case Halts(Reply(_, _, List(xs))) => assert a + (b + xs) == (a + b) + xs;
    case _ =>
  }

  lemma {:induction false} KleeneFromAcc(q: Parser, v: View, acc: seq<Value>)
    requires v.Valid()
    ensures KleeneFrom(q, v, acc) == WithPrefix(acc, KleeneFrom(q, v, []))
    ensures KleeneFrom(q, v, acc).Halts? ==>
              KleeneFrom(q, v, acc).reply.success && KleeneFrom(q, v, acc).reply.value.List?
    decreases |v.s| - v.idx
  {
    var o := Run(q, v);
    if o.Halts? && !o.reply.success {
      assert acc + [] == acc;
    } else if o.Halts? && o.reply.view.idx != v.idx {
      var r := o.reply;
      KleeneFromAcc(q, r.view, acc + [r.value]);
      KleeneFromAcc(q, r.view, [r.value]);
      assert [] + [r.value] == [r.value];
      WithPrefixTwice(acc, [r.value], KleeneFrom(q, r.view, []));
    }
  }

  /** kleene never fails, and what it returns is a list. */
  lemma KleeneNeverFails(q: Parser, v: View)
    requires v.Valid()
    ensures Run(Kleene(q), v).Halts? ==> Run(Kleene(q), v).reply.success && Run(Kleene(q), v).reply.value.List?
  {
    KleeneFromAcc(q, v, []);
  }

  /** kleene unrolled once: it stops with an empty list (and the view unchanged) when the
      inner parser fails; otherwise the inner parser's value comes first, followed by what
      kleene collects from the inner parser's view; an inner success that does not move
      loops forever. */
  lemma KleeneUnroll(q: Parser, v: View)
    requires v.Valid()
    ensures Run(Kleene(q), v) ==
      match Run(q, v)
      case Diverges => Diverges
      case Halts(r) =>
        if !r.success then Halts(Reply(true, v, List([])))
        else if r.view.idx == v.idx then Diverges
        else WithPrefix([r.value], Run(Kleene(q), r.view))
  {
    var o := Run(q, v);
    if o.Halts? && o.reply.success && o.reply.view.idx != v.idx {
      var r := o.reply;
      assert [] + [r.value] == [r.value];
      assert Run(Kleene(q), v) == KleeneFrom(q, r.view, [r.value]);
      KleeneFromAcc(q, r.view, [r.value]);
    }
  }

  /** optional never fails; when the inner parser fails the view is unchanged and the
      value is None; otherwise it is the inner parser's result. */
  lemma OptionalSpec(q: Parser, v: View)
    requires v.Valid()
    ensures Run(Optional(q), v) ==
      match Run(q, v)
      case Diverges => Diverges
      case Halts(r) => if r.success then Halts(r) else Halts(Reply(true, v, Nothing))
    ensures Run(Optional(q), v).Halts? ==> Run(Optional(q), v).reply.success
  {
  }

  lemma {:induction false} TakeUntilFromAcc(t: Parser, u: Parser, v: View, acc: seq<Value>)
    requires v.Valid()
    ensures TakeUntilFrom(t, u, v, acc) == WithPrefix(acc, TakeUntilFrom(t, u, v, []))
    decreases |v.s| - v.idx, 1
  {
    var ou := Run(u, v);
    if ou.Halts? && ou.reply.success {
      assert acc + [] == acc;
    } else if ou.Halts? {
      assert TakeUntilFrom(t, u, v, acc) == TakeStep(t, u, v, acc);
      assert TakeUntilFrom(t, u, v, []) == TakeStep(t, u, v, []);
      TakeStepAcc(t, u, v, acc);
    }
  }

  lemma {:induction false} TakeStepAcc(t: Parser, u: Parser, v: View, acc: seq<Value>)
    requires v.Valid()
    ensures TakeStep(t, u, v, acc) == WithPrefix(acc, TakeStep(t, u, v, []))
    decreases |v.s| - v.idx, 0
  {
    var ot := Run(t, v);
    if ot.Halts? && ot.reply.success && ot.reply.view.idx != v.idx {
      var rt := ot.reply;
      assert TakeStep(t, u, v, acc) == TakeUntilFrom(t, u, rt.view, acc + [rt.value]);
      assert [] + [rt.value] == [rt.value];
      assert TakeStep(t, u, v, []) == TakeUntilFrom(t, u, rt.view, [rt.value]);
      TakeUntilFromAcc(t, u, rt.view, acc + [rt.value]);
      TakeUntilFromAcc(t, u, rt.view, [rt.value]);
      WithPrefixTwice(acc, [rt.value], TakeUntilFrom(t, u, rt.view, []));
    }
  }

  /** take_until, unrolled once: when the untiller succeeds it stops with what it has,
      without consuming (the untiller's view is dropped); when the taker then fails it
      fails with the CURRENT view; otherwise the taker's value comes first and the loop
      goes on from the taker's view. A failure deeper in the loop therefore reports a
      view past the one take_until started from (see TakeUntilLeaks). */
  lemma TakeUntilSpec(t: Parser, u: Parser, v: View)
    requires v.Valid()
    ensures Run(TakeUntil(t, u), v) ==
      match Run(u, v)
      case Diverges => Diverges
      case Halts(ru) =>
        if ru.success then Halts(Reply(true, v, List([])))
        else
          match Run(t, v)
          case Diverges => Diverges
          case Halts(rt) =>
            if !rt.success then Halts(Reply(false, v, Nothing))
            else if rt.view.idx == v.idx then Diverges
            else WithPrefix([rt.value], Run(TakeUntil(t, u), rt.view))
  {
    var ou, ot := Run(u, v), Run(t, v);
    if ou.Halts? && !ou.reply.success {
      assert Run(TakeUntil(t, u), v) == TakeStep(t, u, v, []);
      if ot.Halts? && ot.reply.success && ot.reply.view.idx != v.idx {
        var rt := ot.reply;
        assert [] + [rt.value] == [rt.value];
        assert TakeStep(t, u, v, []) == TakeUntilFrom(t, u, rt.view, [rt.value]);
        TakeUntilFromAcc(t, u, rt.view, [rt.value]);
      }
    }
  }

  /** When the untiller succeeds at once, take_until returns an empty list and consumes
      nothing. */
  lemma TakeUntilStopsAtOnce(t: Parser, u: Parser, v: View)
    requires v.Valid() && Run(u, v).Halts? && Run(u, v).reply.success
    ensures Run(TakeUntil(t, u), v) == Halts(Reply(true, v, List([])))
  {
  }

  /** take_until does not backtrack: taking "a" and "b" and then failing at the end of
      "ab" reports failure at position 2, not at position 0. */
  lemma TakeUntilLeaks()
    ensures Run(TakeUntil(Prim(AnyChar), IsChar(',')), View("ab", 0)) == Halts(Reply(false, View("ab", 2), Nothing))
  {
    var t, u := Prim(AnyChar), IsChar(',');
    TakeUntilSpec(t, u, View("ab", 0));
    TakeUntilSpec(t, u, View("ab", 1));
    TakeUntilSpec(t, u, View("ab", 2));
  }

  /** Replaces the view of a failing reply by `orig`: what parser_generator does when a
      step fails. */
  function Reanchor(orig: View, o: Outcome): Outcome
  {
    match o
    case Halts(Reply(false, _, val)) => Halts(Reply(false, orig, val))
    case _ => o
  }

  /** The finisher of the remaining steps once the first value is known. */
  function Shifted(finish: seq<Value> -> Value, x: Value): seq<Value> -> Value
  {
    xs => finish([x] + xs)
  }

  lemma {:induction false} GeneratedFromShift(steps: seq<Parser>, finish: seq<Value> -> Value, k: nat,
                                              o1: View, o2: View, w: View, vals: seq<Value>)
    requires 1 <= k <= |steps| && |vals| >= 1 && o1.Valid() && o2.Valid() && w.Valid()
    requires Forward(o1, Reply(true, w, Nothing)) && Forward(o2, Reply(true, w, Nothing))
    ensures GeneratedFrom(steps, finish, k, o1, w, vals)
         == Reanchor(o1, GeneratedFrom(steps[1..], Shifted(finish, vals[0]), k - 1, o2, w, vals[1..]))
    decreases |steps| - k
  {
    if k == |steps| {
      assert vals == [vals[0]] + vals[1..];
    } else {
      assert steps[1..][k - 1] == steps[k];
      var o := Run(steps[k], w);
      if o.Halts? && o.reply.success {
        var r := o.reply;
        var vals' := vals + [r.value];
        assert vals'[0] == vals[0] && vals'[1..] == vals[1..] + [r.value];
        GeneratedFromShift(steps, finish, k + 1, o1, o2, r.view, vals');
      }
    }
  }

  lemma {:induction false} GeneratedFromFails(steps: seq<Parser>, finish: seq<Value> -> Value, k: nat,
                                              orig: View, v: View, vals: seq<Value>)
    requires k <= |steps| && orig.Valid() && v.Valid() && Forward(orig, Reply(true, v, Nothing))
    ensures var o := GeneratedFrom(steps, finish, k, orig, v, vals);
            o.Halts? && !o.reply.success ==> o.reply == Reply(false, orig, Nothing)
    decreases |steps| - k
  {
    if k < |steps| {
      var o := Run(steps[k], v);
      if o.Halts? && o.reply.success {
        GeneratedFromFails(steps, finish, k + 1, orig, o.reply.view, vals + [o.reply.value]);
      }
    }
  }

  /** parser_generator with no steps succeeds at once with the generator's return value. */
  lemma GeneratedEmpty(finish: seq<Value> -> Value, v: View)
    requires v.Valid()
    ensures Run(Generated([], finish), v) == Halts(Reply(true, v, finish([])))
  {
  }

  /** parser_generator runs the first yielded parser on the starting view; on its failure
      the composite fails with the starting view; otherwise its value is sent back and the
      remaining steps run from its view, a later failure again reporting the starting
      view. */
  lemma GeneratedSpec(p: Parser, rest: seq<Parser>, finish: seq<Value> -> Value, v: View)
    requires v.Valid()
    ensures Run(Generated([p] + rest, finish), v) ==
      match Run(p, v)
      case Diverges => Diverges
      case Halts(r) =>
        if !r.success then Halts(Reply(false, v, Nothing))
        else Reanchor(v, Run(Generated(rest, Shifted(finish, r.value)), r.view))
  {
    var steps := [p] + rest;
    assert steps[0] == p && steps[1..] == rest;
    var o := Run(p, v);
    if o.Halts? && o.reply.success {
      var r := o.reply;
      assert [] + [r.value] == [r.value];
      assert Run(Generated(steps, finish), v) == GeneratedFrom(steps, finish, 1, v, r.view, [r.value]);
      assert [r.value][0] == r.value && [r.value][1..] == [];
      GeneratedFromShift(steps, finish, 1, v, r.view, r.view, [r.value]);
      assert Run(Generated(rest, Shifted(finish, r.value)), r.view)
          == GeneratedFrom(rest, Shifted(finish, r.value), 0, r.view, r.view, []);
    }
  }

  /** The backtracking contract: every parser except take_until that fails returns the
      view it was given. */
  lemma Backtracking(p: Parser, v: View)
    requires v.Valid() && !p.TakeUntil?
    ensures FailsAt(p, v) ==> Run(p, v).reply == Reply(false, v, Nothing)
  {
    match p
    case Prim(pr) =>
      match pr {
        case CharFits(_) =>
        case AnyChar =>
        case ConsumeString(t) => ConsumeStringSpec(t, v);
        case ReadInteger => ReadIntegerSpec(v);
        case ConsumeWhitespace => WhitespaceSpec(v);
      }
    case TryParsers(alts) => TryParsersSpec(alts, v);
    case Kleene(q) => KleeneNeverFails(q, v);
    case Optional(q) =>
    case Generated(steps, finish) => GeneratedFromFails(steps, finish, 0, v, v, []);
  }

  // ---------------------------------------------------------------------------
  // Scenarios
  // ---------------------------------------------------------------------------

  /** consume_string("foo") on "foobar" takes "foo" and stops at position 3. */
  lemma LiteralScenario()
    ensures Run(Prim(ConsumeString("foo")), View("foobar", 0))
         == Halts(Reply(true, View("foobar", 3), Str("foo")))
  {
    ConsumeStringSpec("foo", View("foobar", 0));
    assert "foobar"[0..3] == "foo";
  }

  /** read_integer on "123abc" reads 123 and stops at position 3; on "abc" it fails at 0. */
  lemma IntegerScenarios()
    ensures Run(Prim(ReadInteger), View("123abc", 0)) == Halts(Reply(true, View("123abc", 3), Int(123)))
    ensures Run(Prim(ReadInteger), View("abc", 0)) == Halts(Reply(false, View("abc", 0), Nothing))
  {
    ReadIntegerSpec(View("abc", 0));
    ReadIntegerSpec(View("123abc", 0));
    var s := "123abc";
    assert forall i :: 0 <= i < 3 ==> IsDigit(s[i]);
    assert !IsDigit(s[3]);
    assert s[0..3] == "123";
    assert DecimalValue("123") == 123 by {
      assert "123"[..2] == "12" && "12"[..1] == "1" && "1"[..0] == "";
    }
  }

  /** The value of the second step, which the generator of the composite returns. */
  function Second(vals: seq<Value>): Value
  {
    if |vals| >= 2 then vals[1] else Nothing
  }

  /** A generator that skips whitespace, reads an integer and then a comma, returning the
      integer: on "  42," it returns 42 and stops after the comma. */
  lemma CompositeScenario()
    ensures Run(Generated([Prim(ConsumeWhitespace), Prim(ReadInteger), IsChar(',')], Second), View("  42,", 0))
         == Halts(Reply(true, View("  42,", 5), Int(42)))
  {
    var s := "  42,";
    var o := View(s, 0);
    var steps := [Prim(ConsumeWhitespace), Prim(ReadInteger), IsChar(',')];
    WhitespaceStep();
    IntegerStep();
    CommaStep();
    assert [] + [Nothing] == [Nothing];
    assert [Nothing] + [Int(42)] == [Nothing, Int(42)];
    assert [Nothing, Int(42)] + [Char(',')] == [Nothing, Int(42), Char(',')];
    assert GeneratedFrom(steps, Second, 0, o, o, [])
        == GeneratedFrom(steps, Second, 1, o, View(s, 2), [Nothing]);
    assert GeneratedFrom(steps, Second, 1, o, View(s, 2), [Nothing])
        == GeneratedFrom(steps, Second, 2, o, View(s, 4), [Nothing, Int(42)]);
    assert GeneratedFrom(steps, Second, 2, o, View(s, 4), [Nothing, Int(42)])
        == GeneratedFrom(steps, Second, 3, o, View(s, 5), [Nothing, Int(42), Char(',')]);
  }

  /** The three steps of the composite on "  42,". */
  lemma WhitespaceStep()
    ensures Run(Prim(ConsumeWhitespace), View("  42,", 0)) == Halts(Reply(true, View("  42,", 2), Nothing))
  {
    var s := "  42,";
    WhitespaceSpec(View(s, 0));
    assert IsSpace(s[0]) && IsSpace(s[1]) && !IsSpace(s[2]);
  }

  lemma IntegerStep()
    ensures Run(Prim(ReadInteger), View("  42,", 2)) == Halts(Reply(true, View("  42,", 4), Int(42)))
  {
    var s := "  42,";
    ReadIntegerSpec(View(s, 2));
    assert IsDigit(s[2]) && IsDigit(s[3]) && !IsDigit(s[4]);
    assert s[2..4] == "42";
    assert DecimalValue("42") == 42 by {
      assert "42"[..1] == "4" && "4"[..0] == "";
    }
  }

  lemma CommaStep()
    ensures Run(IsChar(','), View("  42,", 4)) == Halts(Reply(true, View("  42,", 5), Char(',')))
  {
    IsCharSpec(',', View("  42,", 4));
  }

  /** run_parser on the composite above gives 42. */
  lemma RunParserScenario()
    ensures var g := ParserGenerator([Prim(ConsumeWhitespace), Prim(ReadInteger), IsChar(',')], Second);
            Run(g(), View("  42,", 0)).Halts? && RunParser(g, "  42,") == Some(Int(42))
  {
    CompositeScenario();
  }

  /** take_until(any_char(), consume_string(",")) on "ab,cd" collects 'a' and 'b' and
      stops at the comma without consuming it. */
  lemma TakeUntilScenario()
    ensures Run(TakeUntil(Prim(AnyChar), Prim(ConsumeString(","))), View("ab,cd", 0))
         == Halts(Reply(true, View("ab,cd", 2), List([Char('a'), Char('b')])))
  {
    var t, u, s := Prim(AnyChar), Prim(ConsumeString(",")), "ab,cd";
    ConsumeStringSpec(",", View(s, 0));
    ConsumeStringSpec(",", View(s, 1));
    ConsumeStringSpec(",", View(s, 2));
    assert s[2..3] == ",";
    TakeUntilSpec(t, u, View(s, 0));
    TakeUntilSpec(t, u, View(s, 1));
    TakeUntilSpec(t, u, View(s, 2));
    assert [Char('a')] + ([Char('b')] + []) == [Char('a'), Char('b')];
  }

  // ---------------------------------------------------------------------------
  // The parsers as comb.py runs them: loops over a moving view. Where the Python loop
  // would spin forever (an inner success that does not move), these return Diverges.
  // ---------------------------------------------------------------------------

  /** The primitive parsers' loops. */
  method ExecPrim(pr: Primitive, v: View) returns (r: Reply)
    requires v.Valid()
    ensures r == PrimReply(pr, v)
  {
    match pr
    case CharFits(pred) =>
      var n := v.Next();
      if !n.success || !pred(n.value.c) {
        r := Reply(false, v, Nothing);
      } else {
        r := n;
      }
    case AnyChar =>
      r := v.Next();
    case ConsumeString(t) =>
      var view, k := v, 0;
      while k < |t|
        invariant k <= |t| && view.Valid() && Forward(v, Reply(true, view, Nothing))
        invariant ConsumeStringFrom(t, k, v, view) == ConsumeStringFrom(t, 0, v, v)
      {
        var n := view.Next();
        if !n.success || t[k] != n.value.c {
          return Reply(false, v, Nothing);
        }
        view, k := n.view, k + 1;
      }
      r := Reply(true, view, Str(t));
    case ReadInteger =>
      var view, soFar := v, [];
      while true
        invariant view.Valid() && Forward(v, Reply(true, view, Nothing)) && AllDigits(soFar)
        invariant ReadIntegerFrom(v, view, soFar) == ReadIntegerFrom(v, v, [])
        decreases |view.s| - view.idx
      {
        var n := view.Next();
        if !n.success && soFar == [] {
          return Reply(false, v, Nothing);
        }
        if !n.success || !IsDigit(n.value.c) {
          if soFar != [] {
            return Reply(true, view, Int(DecimalValue(soFar)));
          }
          return Reply(false, view, Nothing);
        }
        view, soFar := n.view, soFar + [n.value.c];
      }
    case ConsumeWhitespace =>
      var view := v;
      while true
        invariant view.Valid() && Forward(v, Reply(true, view, Nothing))
        invariant WhitespaceFrom(v, view) == WhitespaceFrom(v, v)
        decreases |view.s| - view.idx
      {
        var n := view.Next();
        if !n.success {
          return Reply(false, v, Nothing);
        }
        if !IsSpace(n.value.c) {
          return Reply(true, view, Nothing);
        }
        view := n.view;
      }
  }

  /** Runs any parser. */
  method Exec(p: Parser, v: View) returns (o: Outcome)
    requires v.Valid()
    ensures o == Run(p, v)
    decreases p, 1
  {
    match p
    case Prim(pr) =>
      var r := ExecPrim(pr, v);
      o := Halts(r);
    case TryParsers(alts) =>
      o := ExecTry(alts, v);
    case Kleene(q) =>
      o := ExecKleene(q, v);
    case Optional(q) =>
      o := Exec(q, v);
      if o.Halts? && !o.reply.success {
        o := Halts(Reply(true, v, Nothing));
      }
    case TakeUntil(t, u) =>
      o := ExecTakeUntil(t, u, v);
    case Generated(steps, finish) =>
      o := ExecGenerated(steps, finish, v);
  }

  /** try_parsers' loop over the alternatives. */
  method ExecTry(alts: seq<Parser>, v: View) returns (o: Outcome)
    requires v.Valid()
    ensures o == Run(TryParsers(alts), v)
    decreases TryParsers(alts), 0
  {
    var k := 0;
    while k < |alts|
      invariant k <= |alts|
      invariant TryFrom(alts, k, v) == TryFrom(alts, 0, v)
    {
      var r := Exec(alts[k], v);
      if r.Diverges? || r.reply.success {
        return r;
      }
      k := k + 1;
    }
    o := Halts(Reply(false, v, Nothing));
  }

  /** kleene's loop. */
  method ExecKleene(q: Parser, v: View) returns (o: Outcome)
    requires v.Valid()
    ensures o == Run(Kleene(q), v)
    decreases Kleene(q), 0
  {
    var view, result := v, [];
    while true
      invariant view.Valid()
      invariant KleeneFrom(q, view, result) == KleeneFrom(q, v, [])
      decreases |view.s| - view.idx
    {
      var r := Exec(q, view);
      if r.Diverges? {
        return Diverges;
      }
      if !r.reply.success {
        return Halts(Reply(true, view, List(result)));
      }
      if r.reply.view.idx == view.idx {
        return Diverges;
      }
      view, result := r.reply.view, result + [r.reply.value];
    }
  }

  /** take_until's loop. */
  method ExecTakeUntil(t: Parser, u: Parser, v: View) returns (o: Outcome)
    requires v.Valid()
    ensures o == Run(TakeUntil(t, u), v)
    decreases TakeUntil(t, u), 0
  {
    var view, result := v, [];
    while true
      invariant view.Valid()
      invariant TakeUntilFrom(t, u, view, result) == TakeUntilFrom(t, u, v, [])
      decreases |view.s| - view.idx
    {
      var ru := Exec(u, view);
      if ru.Diverges? {
        return Diverges;
      }
      if ru.reply.success {
        return Halts(Reply(true, view, List(result)));
      }
      var rt := Exec(t, view);
      if rt.Diverges? {
        return Diverges;
      }
      if !rt.reply.success {
        return Halts(Reply(false, view, Nothing));
      }
      if rt.reply.view.idx == view.idx {
        return Diverges;
      }
      view, result := rt.reply.view, result + [rt.reply.value];
    }
  }

  /** parser_generator's driver loop: send each value back, stop at the first failure. */
  method ExecGenerated(steps: seq<Parser>, finish: seq<Value> -> Value, v: View) returns (o: Outcome)
    requires v.Valid()
    ensures o == Run(Generated(steps, finish), v)
    decreases Generated(steps, finish), 0
  {
    var view, vals, k := v, [], 0;
    while k < |steps|
      invariant k <= |steps| && view.Valid() && Forward(v, Reply(true, view, Nothing))
      invariant GeneratedFrom(steps, finish, k, v, view, vals) == GeneratedFrom(steps, finish, 0, v, v, [])
    {
      var r := Exec(steps[k], view);
      if r.Diverges? {
        return Diverges;
      }
      if !r.reply.success {
        return Halts(Reply(false, v, Nothing));
      }
      view, vals, k := r.reply.view, vals + [r.reply.value], k + 1;
    }
    o := Halts(Reply(true, view, finish(vals)));
  }
}
