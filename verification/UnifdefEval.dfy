/** The three-valued evaluator that unifdef runs on #if and #elif conditions
    (scripts/unifdef.c).

    The evaluator reads tokens and never builds a tree.  Its meaning is stated against an
    independent reference: a grammar of expressions (`Print`, `Grammatical`) and their value
    under a completion, that is, under an arbitrary choice for everything unifdef was not told. */
module UnifdefEval {

  datatype Op = OpOr | OpAnd | OpEq | OpNe | OpLe | OpGe | OpLt | OpGt

  datatype Token =
    | TNot
    | TOpen
    | TClose
    | TNumber(v: int)
    | TDefined
    | TName(name: string)
    | TOp(op: Op)
    | TOther(c: char)

  /** An entry of the symbol table: -Usym, -Dsym=number, or -Dsym=anything else. */
  datatype Symbol = Undefined | Number(v: int) | Text

  datatype Config = Config(syms: map<string, Symbol>, strictlogic: bool, killconsts: bool)

  /** LT_IF is `Unknown`.  LT_TRUE and LT_FALSE always come with the value left in the
      evaluator's out-parameter and say whether it is non-zero, so the two are one value here. */
  datatype Answer = Unknown | Known(val: int)

  datatype Outcome =
    | Error
    | Ok(ans: Answer, rest: seq<Token>, sawSymbol: bool)

  // ----- the evaluator ---------------------------------------------------------------------

  function BoolValue(b: bool): int {
    if b then 1 else 0
  }

  function BinValue(op: Op, a: int, b: int): int {
    match op
    case OpOr => BoolValue(a != 0 || b != 0)
    case OpAnd => BoolValue(a != 0 && b != 0)
    case OpEq => BoolValue(a == b)
    case OpNe => BoolValue(a != b)
    case OpLe => BoolValue(a <= b)
    case OpGe => BoolValue(a >= b)
    case OpLt => BoolValue(a < b)
    case OpGt => BoolValue(a > b)
  }

  function OpStrict(op: Op, a: Answer, b: Answer): Answer {
    if a.Unknown? || b.Unknown? then Unknown else Known(BinValue(op, a.val, b.val))
  }

  predicate IsTrue(a: Answer) {
    a.Known? && a.val != 0
  }

  predicate IsFalse(a: Answer) {
    a.Known? && a.val == 0
  }

  function ApplyOp(cfg: Config, op: Op, a: Answer, b: Answer): Answer {
    match op
    case OpOr =>
      if !cfg.strictlogic && (IsTrue(a) || IsTrue(b)) then Known(1) else OpStrict(op, a, b)
    case OpAnd =>
      if !cfg.strictlogic && (IsFalse(a) || IsFalse(b)) then Known(0) else OpStrict(op, a, b)
    case _ =>
      OpStrict(op, a, b)
  }

  /** The row of the precedence table that an operator stands in. */
  function Level(op: Op): nat {
    match op
    case OpOr => 0
    case OpAnd => 1
    case OpEq => 2
    case OpNe => 2
    case OpLe => 3
    case OpGe => 3
    case OpLt => 3
    case OpGt => 3
  }

  /** The scan inside skipargs: the tokens after the parenthesis that balances, if there is one. */
  function ScanArgs(toks: seq<Token>, level: nat): (r: (bool, seq<Token>))
    ensures r.0 ==> |r.1| < |toks|
    ensures r.0 ==> r.1 == toks[|toks| - |r.1|..]
  {
    if toks == [] then (false, [])
    else
      var level' := if toks[0] == TOpen then level + 1
                    else if toks[0] == TClose && level > 0 then level - 1
                    else level;
      if level' == 0 then (true, toks[1..]) else ScanArgs(toks[1..], level')
  }

  function SkipArgs(toks: seq<Token>): (rest: seq<Token>)
    ensures |rest| <= |toks|
    ensures rest == toks[|toks| - |rest|..]
  {
    if toks == [] || toks[0] != TOpen then toks
    else
      var (balanced, rest) := ScanArgs(toks, 0);
      if balanced then rest else toks
  }

  /** What skipsym would skip over. */
  predicate IsWord(t: Token) {
    t.TName? || t.TDefined? || t.TNumber?
  }

  predicate Listed(syms: map<string, Symbol>, t: Token) {
    t.TName? && t.name in syms
  }

  function EvalUnary(cfg: Config, toks: seq<Token>): (r: Outcome)
    ensures r.Ok? ==> |r.rest| < |toks|
    decreases |toks|, 0
  {
    if toks == [] then Error
    else
      match toks[0]
      case TNot =>
        var r := EvalUnary(cfg, toks[1..]);
        if r.Ok? && r.ans.Known? then r.(ans := Known(BoolValue(r.ans.val == 0))) else r
      case TOpen =>
        var r := EvalTable(cfg, 0, toks[1..]);
        if r.Error? || r.rest == [] || r.rest[0] != TClose then Error
        else r.(rest := r.rest[1..])
      case TNumber(v) =>
        Ok(Known(v), toks[1..], false)
      case TDefined =>
        var paren := |toks| > 1 && toks[1] == TOpen;
        var at := if paren then 2 else 1;
        // without a word here nothing is looked up and nothing is skipped
        var named := at < |toks| && IsWord(toks[at]);
        var after := if named then at + 1 else at;
        var ans := if named && Listed(cfg.syms, toks[at])
                   then Known(BoolValue(!cfg.syms[toks[at].name].Undefined?))
                   else Unknown;
        if paren && (after >= |toks| || toks[after] != TClose) then Error
        else Ok(ans, toks[if paren then after + 1 else after..], true)
      case TName(name) =>
        if name !in cfg.syms then Ok(Unknown, SkipArgs(toks[1..]), true)
        else
          (match cfg.syms[name]
           case Undefined => Ok(Known(0), toks[1..], true)
           case Text => Error
           case Number(v) => Ok(Known(v), SkipArgs(toks[1..]), true))
      case _ => Error
  }

  function EvalInner(cfg: Config, level: nat, toks: seq<Token>): (r: Outcome)
    requires level <= 3
    ensures r.Ok? ==> |r.rest| < |toks|
    decreases |toks|, 7 - 2 * level
  {
    if level == 3 then EvalUnary(cfg, toks) else EvalTable(cfg, level + 1, toks)
  }

  function EvalTable(cfg: Config, level: nat, toks: seq<Token>): (r: Outcome)
    requires level <= 3
    ensures r.Ok? ==> |r.rest| < |toks|
    decreases |toks|, 8 - 2 * level
  {
    var l := EvalInner(cfg, level, toks);
    if l.Error? then Error else EvalLoop(cfg, level, l)
  }

  /** The loop of eval_table: fold the operators of this level from the left. */
  function EvalLoop(cfg: Config, level: nat, l: Outcome): (r: Outcome)
    requires level <= 3 && l.Ok?
    ensures r.Ok? ==> |r.rest| <= |l.rest|
    decreases |l.rest|, 9
  {
    if l.rest == [] || !l.rest[0].TOp? || Level(l.rest[0].op) != level then l
    else
      var r := EvalInner(cfg, level, l.rest[1..]);
      if r.Error? then Error
      else EvalLoop(cfg, level, Ok(ApplyOp(cfg, l.rest[0].op, l.ans, r.ans), r.rest,
                                   l.sawSymbol || r.sawSymbol))
  }

  /** ifeval: what a #if or #elif line is classified as.  Tokens left over are for the caller. */
  function IfEval(cfg: Config, toks: seq<Token>): Outcome {
    var r := EvalTable(cfg, 0, toks);
    if r.Ok? && !r.sawSymbol && !cfg.killconsts then r.(ans := Unknown) else r
  }

  // ----- the reference: expressions, how they are written, and what they are worth --------------

  datatype Expr =
    | ENumber(v: int)
    | EDefined(paren: bool, subject: seq<Token>)
    | EName(name: string, args: seq<Token>)
    | ENot(e: Expr)
    | EParen(e: Expr)
    | EBin(op: Op, l: Expr, r: Expr)

  function Print(e: Expr): seq<Token> {
    match e
    case ENumber(v) => [TNumber(v)]
    case EDefined(paren, s) => [TDefined] + (if paren then [TOpen] + s + [TClose] else s)
    case EName(name, args) => [TName(name)] + args
    case ENot(x) => [TNot] + Print(x)
    case EParen(x) => [TOpen] + Print(x) + [TClose]
    case EBin(op, l, r) => Print(l) + [TOp(op)] + Print(r)
  }

  /** C's precedence and left associativity, for the operators unifdef knows. */
  predicate Grammatical(e: Expr, level: nat) {
    match e
    case ENot(x) => Grammatical(x, 4)
    case EParen(x) => Grammatical(x, 0)
    case EBin(op, l, r) =>
      level <= Level(op) && Grammatical(l, Level(op)) && Grammatical(r, Level(op) + 1)
    case EDefined(_, s) => s == [] || (|s| == 1 && IsWord(s[0]))
    case EName(_, args) => args == [] || ArgumentList(args)
    case ENumber(_) => true
  }

  /** A parenthesised group of tokens. */
  predicate ArgumentList(args: seq<Token>) {
    args != [] && args[0] == TOpen && ScanArgs(args, 0) == (true, [])
  }

  // The expression that a token list spells, read in the same order as the evaluator reads it.

  datatype Parsed = NoParse | Parsed(e: Expr, rest: seq<Token>)

  function ParseUnary(syms: map<string, Symbol>, toks: seq<Token>): (r: Parsed)
    ensures r.Parsed? ==> |r.rest| < |toks|
    decreases |toks|, 0
  {
    if toks == [] then NoParse
    else
      match toks[0]
      case TNot =>
        var r := ParseUnary(syms, toks[1..]);
        if r.NoParse? then NoParse else Parsed(ENot(r.e), r.rest)
      case TOpen =>
        var r := ParseTable(syms, 0, toks[1..]);
        if r.NoParse? || r.rest == [] || r.rest[0] != TClose then NoParse
        else Parsed(EParen(r.e), r.rest[1..])
      case TNumber(v) =>
        Parsed(ENumber(v), toks[1..])
      case TDefined =>
        ParseDefined(toks[1..])
      case TName(name) =>
        ParseName(syms, name, toks[1..])
      case _ => NoParse
  }

  function ParseDefined(after: seq<Token>): (r: Parsed)
    ensures r.Parsed? ==> |r.rest| <= |after|
  {
    if after != [] && after[0] == TOpen then
      var subject := if 1 < |after| && IsWord(after[1]) then [after[1]] else [];
      var close := 1 + |subject|;
      if close >= |after| || after[close] != TClose then NoParse
      else Parsed(EDefined(true, subject), after[close + 1..])
    else if after != [] && IsWord(after[0]) then Parsed(EDefined(false, [after[0]]), after[1..])
    else Parsed(EDefined(false, []), after)
  }

  /** A symbol known to be undefined takes no arguments. */
  function ParseName(syms: map<string, Symbol>, name: string, after: seq<Token>): (r: Parsed)
    ensures r.Parsed? && |r.rest| <= |after|
  {
    if name in syms && syms[name].Undefined? then Parsed(EName(name, []), after)
    else
      var rest := SkipArgs(after);
      Parsed(EName(name, after[..|after| - |rest|]), rest)
  }

  function ParseInner(syms: map<string, Symbol>, level: nat, toks: seq<Token>): (r: Parsed)
    requires level <= 3
    ensures r.Parsed? ==> |r.rest| < |toks|
    decreases |toks|, 7 - 2 * level
  {
    if level == 3 then ParseUnary(syms, toks) else ParseTable(syms, level + 1, toks)
  }

  function ParseTable(syms: map<string, Symbol>, level: nat, toks: seq<Token>): (r: Parsed)
    requires level <= 3
    ensures r.Parsed? ==> |r.rest| < |toks|
    decreases |toks|, 8 - 2 * level
  {
    var l := ParseInner(syms, level, toks);
    if l.NoParse? then NoParse else ParseLoop(syms, level, l)
  }

  function ParseLoop(syms: map<string, Symbol>, level: nat, l: Parsed): (r: Parsed)
    requires level <= 3 && l.Parsed?
    ensures r.Parsed? ==> |r.rest| <= |l.rest|
    decreases |l.rest|, 9
  {
    if l.rest == [] || !l.rest[0].TOp? || Level(l.rest[0].op) != level then l
    else
      var r := ParseInner(syms, level, l.rest[1..]);
      if r.NoParse? then NoParse
      else ParseLoop(syms, level, Parsed(EBin(l.rest[0].op, l.e, r.e), r.rest))
  }

  /** Everything that is not known: which symbols are defined, what a symbol (with its
      macro arguments) is worth, and whether a condition unifdef cannot read holds. */
  datatype Completion = Completion(
    defined: seq<Token> -> bool,
    value: (string, seq<Token>) -> int,
    unread: seq<Token> -> bool)

  function Value(syms: map<string, Symbol>, k: Completion, e: Expr): int {
    match e
    case ENumber(v) => v
    case EDefined(_, s) =>
      if |s| == 1 && Listed(syms, s[0])
      then BoolValue(!syms[s[0].name].Undefined?)
      else BoolValue(k.defined(s))
    case EName(name, args) =>
      if name in syms && syms[name].Undefined? then 0
      else if name in syms && syms[name].Number? then syms[name].v
      else k.value(name, args)
    case ENot(x) => BoolValue(Value(syms, k, x) == 0)
    case EParen(x) => Value(syms, k, x)
    case EBin(op, l, r) => BinValue(op, Value(syms, k, l), Value(syms, k, r))
  }

  /** Every symbol the expression mentions is in the table. */
  predicate Closed(syms: map<string, Symbol>, e: Expr) {
    match e
    case ENumber(_) => true
    case EDefined(_, s) => |s| == 1 && Listed(syms, s[0])
    case EName(name, _) => name in syms && !syms[name].Text?
    case ENot(x) => Closed(syms, x)
    case EParen(x) => Closed(syms, x)
    case EBin(_, l, r) => Closed(syms, l) && Closed(syms, r)
  }

  predicate MentionsSymbol(e: Expr) {
    match e
    case ENumber(_) => false
    case EDefined(_, _) => true
    case EName(_, _) => true
    case ENot(x) => MentionsSymbol(x)
    case EParen(x) => MentionsSymbol(x)
    case EBin(_, l, r) => MentionsSymbol(l) || MentionsSymbol(r)
  }

  /** An answer is right for an expression: if there is one, every completion gives that value. */
  ghost predicate Right(syms: map<string, Symbol>, ans: Answer, e: Expr) {
    ans.Known? ==> forall k: Completion :: Value(syms, k, e) == ans.val
  }

  // ----- the parse is adequate: it spells what it consumed ---------------------------------------------

  predicate Spells(level: nat, toks: seq<Token>, r: Parsed) {
    r.Parsed? ==> Print(r.e) + r.rest == toks && Grammatical(r.e, level)
  }

  lemma {:induction false} ScanArgsPrefix(toks: seq<Token>, level: nat, args: seq<Token>)
    requires ScanArgs(toks, level).0 && args == toks[..|toks| - |ScanArgs(toks, level).1|]
    ensures ScanArgs(args, level) == (true, [])
    decreases |toks|
  {
    var level' := if toks[0] == TOpen then level + 1
                  else if toks[0] == TClose && level > 0 then level - 1
                  else level;
    if level' != 0 {
      ScanArgsPrefix(toks[1..], level', args[1..]);
    }
  }

  lemma PrintName(name: string, args: seq<Token>, rest: seq<Token>, after: seq<Token>)
    requires after == args + rest
    ensures Print(EName(name, args)) + rest == [TName(name)] + after
  {
  }

  lemma PrintDefined(paren: bool, subject: seq<Token>, rest: seq<Token>, after: seq<Token>)
    requires after == if paren then [TOpen] + subject + [TClose] + rest else subject + rest
    ensures Print(EDefined(paren, subject)) + rest == [TDefined] + after
  {
  }

  lemma PrintNot(x: Expr, rest: seq<Token>, after: seq<Token>)
    requires after == Print(x) + rest
    ensures Print(ENot(x)) + rest == [TNot] + after
  {
  }

  lemma PrintParen(x: Expr, rest: seq<Token>, after: seq<Token>)
    requires after == Print(x) + ([TClose] + rest)
    ensures Print(EParen(x)) + rest == [TOpen] + after
  {
  }

  lemma {:induction false} ParseNameSplits(syms: map<string, Symbol>, name: string, after: seq<Token>)
    ensures after == ParseName(syms, name, after).e.args + ParseName(syms, name, after).rest
  {
  }

  lemma {:induction false} ParseNameGrammatical(syms: map<string, Symbol>, name: string, after: seq<Token>)
    ensures Grammatical(ParseName(syms, name, after).e, 4)
  {
    var r := ParseName(syms, name, after);
    if r.e.args != [] {
      ScanArgsPrefix(after, 0, r.e.args);
    }
  }

  lemma {:induction false} ParseNameSpells(syms: map<string, Symbol>, name: string, after: seq<Token>)
    ensures Spells(4, [TName(name)] + after, ParseName(syms, name, after))
  {
    var r := ParseName(syms, name, after);
    ParseNameSplits(syms, name, after);
    ParseNameGrammatical(syms, name, after);
    PrintName(name, r.e.args, r.rest, after);
  }

  lemma {:induction false} ParseDefinedSplits(after: seq<Token>)
    requires ParseDefined(after).Parsed?
    ensures var r := ParseDefined(after);
            after == if r.e.paren then [TOpen] + r.e.subject + [TClose] + r.rest else r.e.subject + r.rest
  {
  }

  lemma {:induction false} ParseDefinedSpells(after: seq<Token>)
    ensures Spells(4, [TDefined] + after, ParseDefined(after))
  {
    var r := ParseDefined(after);
    if r.Parsed? {
      ParseDefinedSplits(after);
      PrintDefined(r.e.paren, r.e.subject, r.rest, after);
    }
  }

  lemma {:induction false} ParseUnarySpells(syms: map<string, Symbol>, toks: seq<Token>)
    ensures Spells(4, toks, ParseUnary(syms, toks))
    decreases |toks|, 0
  {
    if toks != [] && ParseUnary(syms, toks).Parsed? {
      var after := toks[1..];
      assert toks == [toks[0]] + after;
      match toks[0]
      case TNot =>
        ParseUnarySpells(syms, after);
        PrintNot(ParseUnary(syms, after).e, ParseUnary(syms, after).rest, after);
      case TOpen =>
        ParseTableSpells(syms, 0, after);
        var r := ParseTable(syms, 0, after);
        assert r.rest == [TClose] + r.rest[1..];
        PrintParen(r.e, r.rest[1..], after);
      case TDefined =>
        ParseDefinedSpells(after);
      case TName(name) =>
        ParseNameSpells(syms, name, after);
      case _ =>
    }
  }

  lemma {:induction false} ParseInnerSpells(syms: map<string, Symbol>, level: nat, toks: seq<Token>)
    requires level <= 3
    ensures Spells(level + 1, toks, ParseInner(syms, level, toks))
    decreases |toks|, 7 - 2 * level
  {
    if level == 3 {
      ParseUnarySpells(syms, toks);
    } else {
      ParseTableSpells(syms, level + 1, toks);
    }
  }

  /** The parse of a token list is a grammatical expression that spells the tokens it consumed. */
  lemma {:induction false} ParseTableSpells(syms: map<string, Symbol>, level: nat, toks: seq<Token>)
    requires level <= 3
    ensures Spells(level, toks, ParseTable(syms, level, toks))
    decreases |toks|, 8 - 2 * level
  {
    ParseInnerSpells(syms, level, toks);
    if ParseInner(syms, level, toks).Parsed? {
      ParseLoopSpells(syms, level, toks, ParseInner(syms, level, toks));
    }
  }

  /** An operator between two spelled operands spells their combination. */
  lemma {:induction false} JoinSpells(level: nat, toks: seq<Token>, l: Parsed, r: Parsed)
    requires level <= 3 && l.Parsed? && r.Parsed? && Spells(level, toks, l)
    requires l.rest != [] && l.rest[0].TOp? && Level(l.rest[0].op) == level && Spells(level + 1, l.rest[1..], r)
    ensures Spells(level, toks, Parsed(EBin(l.rest[0].op, l.e, r.e), r.rest))
  {
    var op := l.rest[0].op;
    assert l.rest == [TOp(op)] + (Print(r.e) + r.rest);
    assert toks == Print(l.e) + [TOp(op)] + Print(r.e) + r.rest;
  }

  lemma {:induction false} ParseLoopSpells(syms: map<string, Symbol>, level: nat, toks: seq<Token>, l: Parsed)
    requires level <= 3 && l.Parsed? && Spells(level, toks, l)
    ensures Spells(level, toks, ParseLoop(syms, level, l))
    decreases |l.rest|, 9
  {
    if l.rest == [] || !l.rest[0].TOp? || Level(l.rest[0].op) != level {
    } else {
      ParseInnerSpells(syms, level, l.rest[1..]);
      var r := ParseInner(syms, level, l.rest[1..]);
      if r.Parsed? {
        var joined := Parsed(EBin(l.rest[0].op, l.e, r.e), r.rest);
        JoinSpells(level, toks, l, r);
        ParseLoopSpells(syms, level, toks, joined);
      }
    }
  }

  // ----- the parse is unambiguous: printing and parsing are inverse --------------------------------------

  /** No symbol known to be undefined is given arguments. */
  predicate ArgumentsAllowed(syms: map<string, Symbol>, e: Expr) {
    match e
    case EName(name, args) => name in syms && syms[name].Undefined? ==> args == []
    case ENot(x) => ArgumentsAllowed(syms, x)
    case EParen(x) => ArgumentsAllowed(syms, x)
    case EBin(_, l, r) => ArgumentsAllowed(syms, l) && ArgumentsAllowed(syms, r)
    case _ => true
  }

  /** Tokens at which an expression of this level ends. */
  predicate Ends(rest: seq<Token>, level: nat) {
    rest == [] || rest[0].TClose? || rest[0].TOther? || (rest[0].TOp? && Level(rest[0].op) < level)
  }

  lemma {:induction false} ScanArgsAppend(args: seq<Token>, level: nat, rest: seq<Token>)
    requires ScanArgs(args, level) == (true, [])
    ensures ScanArgs(args + rest, level) == (true, rest)
    decreases |args|
  {
    var level' := if args[0] == TOpen then level + 1
                  else if args[0] == TClose && level > 0 then level - 1
                  else level;
    assert (args + rest)[1..] == args[1..] + rest;
    if level' != 0 {
      ScanArgsAppend(args[1..], level', rest);
    }
  }

  lemma {:induction false} SkipArgsAppend(args: seq<Token>, rest: seq<Token>)
    requires (args == [] || ArgumentList(args)) && Ends(rest, 4)
    ensures SkipArgs(args + rest) == rest
  {
    if args == [] {
      assert args + rest == rest;
    } else {
      ScanArgsAppend(args, 0, rest);
    }
  }

  lemma {:induction false} ParsePrintName(syms: map<string, Symbol>, e: Expr, rest: seq<Token>)
    requires e.EName? && Grammatical(e, 4) && ArgumentsAllowed(syms, e) && Ends(rest, 4)
    ensures ParseName(syms, e.name, e.args + rest) == Parsed(e, rest)
  {
    SkipArgsAppend(e.args, rest);
    assert (e.args + rest)[..|e.args|] == e.args;
    if e.args == [] {
      assert e.args + rest == rest;
    }
  }

  lemma {:induction false} ParsePrintDefined(e: Expr, rest: seq<Token>, after: seq<Token>)
    requires e.EDefined? && Grammatical(e, 4) && Ends(rest, 4)
    requires after == if e.paren then [TOpen] + e.subject + [TClose] + rest else e.subject + rest
    ensures ParseDefined(after) == Parsed(e, rest)
  {
  }

  lemma {:induction false} ParsePrintUnary(syms: map<string, Symbol>, e: Expr, rest: seq<Token>)
    requires Grammatical(e, 4) && ArgumentsAllowed(syms, e) && Ends(rest, 4) && !e.EBin?
    ensures ParseUnary(syms, Print(e) + rest) == Parsed(e, rest)
    decreases e, 0
  {
    match e
    case ENumber(v) =>
      ParseUnaryStep(syms, TNumber(v), rest, Print(e) + rest);
    case EDefined(paren, subject) =>
      var after := if paren then [TOpen] + subject + [TClose] + rest else subject + rest;
      PrintDefined(paren, subject, rest, after);
      ParsePrintDefined(e, rest, after);
      ParseUnaryStep(syms, TDefined, after, Print(e) + rest);
    case EName(name, args) =>
      PrintName(name, args, rest, args + rest);
      ParsePrintName(syms, e, rest);
      ParseUnaryStep(syms, TName(name), args + rest, Print(e) + rest);
    case ENot(x) =>
      PrintNot(x, rest, Print(x) + rest);
      ParsePrintUnary(syms, x, rest);
      ParseUnaryStep(syms, TNot, Print(x) + rest, Print(e) + rest);
    case EParen(x) =>
      var after := Print(x) + ([TClose] + rest);
      PrintParen(x, rest, after);
      ParsePrintTable(syms, x, 0, [TClose] + rest);
      ParseUnaryStep(syms, TOpen, after, Print(e) + rest);
  }

  /** One unfolding of ParseUnary. */
  lemma {:induction false} ParseUnaryStep(syms: map<string, Symbol>, t: Token, after: seq<Token>, toks: seq<Token>)
    requires toks == [t] + after
    ensures ParseUnary(syms, toks) ==
            match t
            case TNot =>
              var r := ParseUnary(syms, after);
              if r.NoParse? then NoParse else Parsed(ENot(r.e), r.rest)
            case TOpen =>
              var r := ParseTable(syms, 0, after);
              if r.NoParse? || r.rest == [] || r.rest[0] != TClose then NoParse
              else Parsed(EParen(r.e), r.rest[1..])
            case TNumber(v) => Parsed(ENumber(v), after)
            case TDefined => ParseDefined(after)
            case TName(name) => ParseName(syms, name, after)
            case _ => NoParse
  {
    assert toks[1..] == after;
  }

  lemma {:induction false} ParsePrintTable(syms: map<string, Symbol>, e: Expr, level: nat, rest: seq<Token>)
    requires level <= 3 && Grammatical(e, level) && ArgumentsAllowed(syms, e) && Ends(rest, level + 1)
    ensures ParseTable(syms, level, Print(e) + rest) == ParseLoop(syms, level, Parsed(e, rest))
    decreases e, 8 - 2 * level
  {
    if e.EBin? && Level(e.op) == level {
      var more := [TOp(e.op)] + (Print(e.r) + rest);
      assert Print(e) + rest == Print(e.l) + more;
      ParsePrintTable(syms, e.l, level, more);
      ParsePrintInner(syms, e.r, level, rest);
      ParseLoopStep(syms, level, e, rest);
    } else {
      ParsePrintInner(syms, e, level, rest);
    }
  }

  lemma {:induction false} ParseLoopStep(syms: map<string, Symbol>, level: nat, e: Expr, rest: seq<Token>)
    requires level <= 3 && e.EBin? && Level(e.op) == level
    requires ParseInner(syms, level, Print(e.r) + rest) == Parsed(e.r, rest)
    ensures ParseLoop(syms, level, Parsed(e.l, [TOp(e.op)] + (Print(e.r) + rest))) ==
            ParseLoop(syms, level, Parsed(e, rest))
  {
    assert ([TOp(e.op)] + (Print(e.r) + rest))[1..] == Print(e.r) + rest;
  }

  lemma {:induction false} ParsePrintInner(syms: map<string, Symbol>, e: Expr, level: nat, rest: seq<Token>)
    requires level <= 3 && Grammatical(e, level + 1) && ArgumentsAllowed(syms, e) && Ends(rest, level + 1)
    ensures ParseInner(syms, level, Print(e) + rest) == Parsed(e, rest)
    decreases e, 7 - 2 * level
  {
    if level == 3 {
      ParsePrintUnary(syms, e, rest);
    } else {
      ParsePrintTable(syms, e, level + 1, rest);
    }
  }

  /** Every grammatical expression is read back from the tokens that spell it, so a token list
      spells at most one expression and `Value` of it is what the condition means. */
  lemma ParsePrint(syms: map<string, Symbol>, e: Expr)
    requires Grammatical(e, 0) && ArgumentsAllowed(syms, e)
    ensures ParseTable(syms, 0, Print(e)) == Parsed(e, [])
  {
    ParsePrintTable(syms, e, 0, []);
    assert Print(e) + [] == Print(e);
  }

  // ----- soundness ------------------------------------------------------------------------------

  /** The evaluator's outcome is right for the expression read from the same tokens. */
  ghost predicate Agrees(cfg: Config, r: Outcome, p: Parsed) {
    r.Ok? ==>
      && p.Parsed? && r.rest == p.rest
      && Right(cfg.syms, r.ans, p.e)
      && (Closed(cfg.syms, p.e) ==> r.ans.Known?)
      && (cfg.strictlogic && r.ans.Known? ==> Closed(cfg.syms, p.e))
      && r.sawSymbol == MentionsSymbol(p.e)
  }

  lemma ApplyOpRight(cfg: Config, op: Op, a: Answer, b: Answer, l: Expr, r: Expr)
    requires Right(cfg.syms, a, l) && Right(cfg.syms, b, r)
    ensures Right(cfg.syms, ApplyOp(cfg, op, a, b), EBin(op, l, r))
  {
    forall k: Completion | ApplyOp(cfg, op, a, b).Known?
      ensures Value(cfg.syms, k, EBin(op, l, r)) == ApplyOp(cfg, op, a, b).val
    {
      if a.Known? { assert Value(cfg.syms, k, l) == a.val; }
      if b.Known? { assert Value(cfg.syms, k, r) == b.val; }
    }
  }

  lemma {:induction false} EvalDefinedSound(cfg: Config, toks: seq<Token>)
    requires toks != [] && toks[0].TDefined?
    ensures Agrees(cfg, EvalUnary(cfg, toks), ParseUnary(cfg.syms, toks))
  {
  }

  lemma {:induction false} EvalNameSound(cfg: Config, toks: seq<Token>)
    requires toks != [] && toks[0].TName?
    ensures Agrees(cfg, EvalUnary(cfg, toks), ParseUnary(cfg.syms, toks))
  {
    var name := toks[0].name;
    if name !in cfg.syms {
    } else if cfg.syms[name].Number? {
    }
  }

  lemma {:induction false} EvalUnarySound(cfg: Config, toks: seq<Token>)
    ensures Agrees(cfg, EvalUnary(cfg, toks), ParseUnary(cfg.syms, toks))
    decreases |toks|, 0
  {
    if toks == [] {
    } else if toks[0].TNot? {
      EvalUnarySound(cfg, toks[1..]);
      var r, p := EvalUnary(cfg, toks[1..]), ParseUnary(cfg.syms, toks[1..]);
      forall k: Completion | r.Ok? && r.ans.Known?
        ensures Value(cfg.syms, k, ENot(p.e)) == BoolValue(r.ans.val == 0)
      {
        assert Value(cfg.syms, k, p.e) == r.ans.val;
      }
    } else if toks[0].TOpen? {
      EvalTableSound(cfg, 0, toks[1..]);
      var r, p := EvalTable(cfg, 0, toks[1..]), ParseTable(cfg.syms, 0, toks[1..]);
      forall k: Completion | r.Ok? && r.ans.Known?
        ensures Value(cfg.syms, k, EParen(p.e)) == r.ans.val
      {
        assert Value(cfg.syms, k, p.e) == r.ans.val;
      }
    } else if toks[0].TDefined? {
      EvalDefinedSound(cfg, toks);
    } else if toks[0].TName? {
      EvalNameSound(cfg, toks);
    }
  }

  lemma {:induction false} EvalInnerSound(cfg: Config, level: nat, toks: seq<Token>)
    requires level <= 3
    ensures Agrees(cfg, EvalInner(cfg, level, toks), ParseInner(cfg.syms, level, toks))
    decreases |toks|, 7 - 2 * level
  {
    if level == 3 {
      EvalUnarySound(cfg, toks);
    } else {
      EvalTableSound(cfg, level + 1, toks);
    }
  }

  lemma {:induction false} EvalTableSound(cfg: Config, level: nat, toks: seq<Token>)
    requires level <= 3
    ensures Agrees(cfg, EvalTable(cfg, level, toks), ParseTable(cfg.syms, level, toks))
    decreases |toks|, 8 - 2 * level
  {
    EvalInnerSound(cfg, level, toks);
    var l := EvalInner(cfg, level, toks);
    if l.Ok? {
      EvalLoopSound(cfg, level, l, ParseInner(cfg.syms, level, toks));
    }
  }

  lemma {:induction false} EvalLoopSound(cfg: Config, level: nat, l: Outcome, p: Parsed)
    requires level <= 3 && l.Ok? && p.Parsed? && Agrees(cfg, l, p)
    ensures Agrees(cfg, EvalLoop(cfg, level, l), ParseLoop(cfg.syms, level, p))
    decreases |l.rest|, 9
  {
    if l.rest == [] || !l.rest[0].TOp? || Level(l.rest[0].op) != level {
    } else {
      var op := l.rest[0].op;
      EvalInnerSound(cfg, level, l.rest[1..]);
      var r, q := EvalInner(cfg, level, l.rest[1..]), ParseInner(cfg.syms, level, l.rest[1..]);
      if r.Ok? {
        ApplyOpRight(cfg, op, l.ans, r.ans, p.e, q.e);
        EvalLoopSound(cfg, level,
          Ok(ApplyOp(cfg, op, l.ans, r.ans), r.rest, l.sawSymbol || r.sawSymbol),
          Parsed(EBin(op, p.e, q.e), q.rest));
      }
    }
  }

  /** Soundness and completeness of ifeval.  Whenever it reads a condition, the tokens it
      consumed spell a grammatical expression; an answer it gives is that expression's value under
      every completion of the unknown symbols; an expression without unknown symbols always gets
      one (unless it is constant and -k is off); and under -K no other expression does. */
  lemma IfEvalSound(cfg: Config, toks: seq<Token>)
    requires IfEval(cfg, toks).Ok?
    ensures var r, p := IfEval(cfg, toks), ParseTable(cfg.syms, 0, toks);
            && p.Parsed? && p.rest == r.rest
            && Print(p.e) + r.rest == toks && Grammatical(p.e, 0)
            && (r.ans.Known? ==> forall k: Completion :: Value(cfg.syms, k, p.e) == r.ans.val)
            && (Closed(cfg.syms, p.e) && (cfg.killconsts || MentionsSymbol(p.e)) ==> r.ans.Known?)
            && (r.ans.Known? ==> cfg.killconsts || MentionsSymbol(p.e))
            && (r.ans.Known? && cfg.strictlogic ==> Closed(cfg.syms, p.e))
  {
    EvalTableSound(cfg, 0, toks);
    ParseTableSpells(cfg.syms, 0, toks);
  }

  // ----- the strict mode --------------------------------------------------------------------------

  /** `s` is `r` with some answers withheld: the same tokens are read, no answer is changed. */
  predicate Withholds(s: Outcome, r: Outcome) {
    && s.Error? == r.Error?
    && (s.Ok? ==> s.rest == r.rest && s.sawSymbol == r.sawSymbol)
    && (s.Ok? && s.ans.Known? ==> r.ans == s.ans)
  }

  lemma {:induction false} StrictUnary(cfg: Config, toks: seq<Token>)
    ensures Withholds(EvalUnary(cfg.(strictlogic := true), toks),
                      EvalUnary(cfg.(strictlogic := false), toks))
    decreases |toks|, 0
  {
    if toks != [] {
      if toks[0].TNot? {
        StrictUnary(cfg, toks[1..]);
      } else if toks[0].TOpen? {
        StrictTable(cfg, 0, toks[1..]);
      }
    }
  }

  lemma {:induction false} StrictInner(cfg: Config, level: nat, toks: seq<Token>)
    requires level <= 3
    ensures Withholds(EvalInner(cfg.(strictlogic := true), level, toks),
                      EvalInner(cfg.(strictlogic := false), level, toks))
    decreases |toks|, 7 - 2 * level
  {
    if level == 3 {
      StrictUnary(cfg, toks);
    } else {
      StrictTable(cfg, level + 1, toks);
    }
  }

  lemma {:induction false} StrictTable(cfg: Config, level: nat, toks: seq<Token>)
    requires level <= 3
    ensures Withholds(EvalTable(cfg.(strictlogic := true), level, toks),
                      EvalTable(cfg.(strictlogic := false), level, toks))
    decreases |toks|, 8 - 2 * level
  {
    StrictInner(cfg, level, toks);
    var s := EvalInner(cfg.(strictlogic := true), level, toks);
    var r := EvalInner(cfg.(strictlogic := false), level, toks);
    if s.Ok? {
      StrictLoop(cfg, level, s, r);
    }
  }

  lemma {:induction false} StrictLoop(cfg: Config, level: nat, s: Outcome, r: Outcome)
    requires level <= 3 && s.Ok? && r.Ok? && Withholds(s, r)
    ensures Withholds(EvalLoop(cfg.(strictlogic := true), level, s),
                      EvalLoop(cfg.(strictlogic := false), level, r))
    decreases |s.rest|, 9
  {
    if s.rest == [] || !s.rest[0].TOp? || Level(s.rest[0].op) != level {
    } else {
      var strict, lax := cfg.(strictlogic := true), cfg.(strictlogic := false);
      StrictInner(cfg, level, s.rest[1..]);
      var s', r' := EvalInner(strict, level, s.rest[1..]), EvalInner(lax, level, s.rest[1..]);
      if s'.Ok? {
        var op := s.rest[0].op;
        StrictLoop(cfg, level,
          Ok(ApplyOp(strict, op, s.ans, s'.ans), s'.rest, s.sawSymbol || s'.sawSymbol),
          Ok(ApplyOp(lax, op, r.ans, r'.ans), r'.rest, r.sawSymbol || r'.sawSymbol));
      }
    }
  }

  /** -K only ever turns an answer into "unknown": it reads the same tokens, fails on the same
      conditions, and where it answers, the default mode gives the very same answer. */
  lemma StrictOnlyWithholds(cfg: Config, toks: seq<Token>)
    ensures Withholds(IfEval(cfg.(strictlogic := true), toks),
                      IfEval(cfg.(strictlogic := false), toks))
  {
    StrictTable(cfg, 0, toks);
  }
}
