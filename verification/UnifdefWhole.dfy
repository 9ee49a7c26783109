/** From source lines to the promise: how parseline types a line, and what the whole program
    preserves for every completion of the symbols it was not told about. */
module UnifdefWhole {
  import opened UnifdefEval
  import opened UnifdefDriver
  import opened UnifdefMeaning
  import opened UnifdefProcess

  /** A line as the parser sees it, and whether comments spread its directive over several lines. */
  datatype Source = Source(line: Line, dodgy: bool)

  /** The options: the symbol table and evaluator flags, and the symbols given with -iD or -iU. */
  datatype Options = Options(cfg: Config, ignored: set<string>)

  /** The verdict on #ifdef and #ifndef.  Anything after the symbol makes the line unknown. */
  function TypeOfDef(opt: Options, toks: seq<Token>, negated: bool): Kind {
    if |toks| != 1 || !Listed(opt.cfg.syms, toks[0]) then If
    else
      var holds := opt.cfg.syms[toks[0].name].Undefined? == negated;
      if toks[0].name in opt.ignored then (if holds then TrueI else FalseI)
      else if holds then True else False
  }

  /** The verdict of ifeval.  A condition it cannot read, or that has text after it, is unknown. */
  function Verdict(opt: Options, toks: seq<Token>): Answer {
    var r := IfEval(opt.cfg, toks);
    if r.Ok? && r.rest == [] then r.ans else Unknown
  }

  function TypeOf(opt: Options, s: Source): Linetype {
    match s.line
    case PlainLine(_) => Plain
    case ElseLine => Directive(Else, s.dodgy)
    case EndifLine => Directive(Endif, s.dodgy)
    case IfLine(IfDef(toks)) => Directive(TypeOfDef(opt, toks, false), s.dodgy)
    case IfLine(IfNDef(toks)) => Directive(TypeOfDef(opt, toks, true), s.dodgy)
    case IfLine(Expression(toks)) =>
      var v := Verdict(opt, toks);
      Directive(if IsTrue(v) then True else if IsFalse(v) then False else If, s.dodgy)
    case ElifLine(Expression(toks)) =>
      var v := Verdict(opt, toks);
      Directive(if IsTrue(v) then ElTrue else if IsFalse(v) then ElFalse else Elif, s.dodgy)
    case ElifLine(_) => Directive(Elif, s.dodgy)
  }

  function Typed(opt: Options, src: seq<Source>): (items: seq<Item>)
    ensures |items| == |src|
    ensures forall i :: 0 <= i < |src| ==> items[i] == Item(src[i].line, TypeOf(opt, src[i]))
    ensures forall i :: 0 <= i < |src| ==> !items[i].lt.Error?
  {
    seq(|src|, i requires 0 <= i < |src| => Item(src[i].line, TypeOf(opt, src[i])))
  }

  /** Whether a condition holds under a completion. */
  function Holds(syms: map<string, Symbol>, k: Completion, c: Condition): bool {
    match c
    case IfDef(toks) =>
      if |toks| == 1 && Listed(syms, toks[0]) then !syms[toks[0].name].Undefined? else k.defined(toks)
    case IfNDef(toks) =>
      if |toks| == 1 && Listed(syms, toks[0]) then syms[toks[0].name].Undefined? else !k.defined(toks)
    case Expression(toks) =>
      var p := ParseTable(syms, 0, toks);
      if p.Parsed? && p.rest == [] then Value(syms, k, p.e) != 0 else k.unread(toks)
  }

  /** A verdict on an expression is borne out by every completion. */
  lemma VerdictHolds(opt: Options, toks: seq<Token>, k: Completion)
    ensures IsTrue(Verdict(opt, toks)) ==> Holds(opt.cfg.syms, k, Expression(toks))
    ensures IsFalse(Verdict(opt, toks)) ==> !Holds(opt.cfg.syms, k, Expression(toks))
  {
    if Verdict(opt, toks).Known? {
      IfEvalSound(opt.cfg, toks);
    }
  }

  /** Every line type that parseline hands to the state machine is right under every completion. */
  lemma TypesFit(opt: Options, s: Source, k: Completion)
    ensures Fits(Item(s.line, TypeOf(opt, s)), c => Holds(opt.cfg.syms, k, c))
  {
    match s.line
    case IfLine(Expression(toks)) => VerdictHolds(opt, toks, k);
    case ElifLine(Expression(toks)) => VerdictHolds(opt, toks, k);
    case _ =>
  }

  function SourceLines(src: seq<Source>): seq<Line> {
    seq(|src|, i requires 0 <= i < |src| => src[i].line)
  }

  /** A completion for each place in the file, which may depend on the text selected before it: this is
      what #define and #undef in the file do to the symbols that were not given. */
  type Completions = seq<string> -> Completion

  function TruthOf(syms: map<string, Symbol>, ks: Completions): Truth {
    (text, c) => Holds(syms, ks(text), c)
  }

  /** Both files are well nested and leave the same text. */
  predicate SameText(syms: map<string, Symbol>, ks: Completions, out: seq<Line>, lines: seq<Line>) {
    var truth := TruthOf(syms, ks);
    && Preprocess(out, truth) == Preprocess(lines, truth)
    && Preprocess(out, truth).Cpp? && Preprocess(out, truth).nest.Level0?
  }

  lemma TypedFit(opt: Options, src: seq<Source>, ks: Completions)
    ensures AllFit(Typed(opt, src), TruthOf(opt.cfg.syms, ks))
  {
    var items, truth := Typed(opt, src), TruthOf(opt.cfg.syms, ks);
    forall n, text | 0 <= n < |items|
      ensures Fits(items[n], At(truth, text))
    {
      TypesFit(opt, src[n], ks(text));
    }
  }

  /** End to end: unless unifdef reports an error, its output and its input leave the same text
      under every completion of the symbols that were not given on the command line, also if the
      completion changes with the text. */
  lemma UnifdefPreservesMeaning(opt: Options, iocccok: bool, src: seq<Source>, ks: Completions)
    requires RunToEnd(iocccok, Typed(opt, src)).status.Finished?
    ensures SameText(opt.cfg.syms, ks, RunToEnd(iocccok, Typed(opt, src)).out, SourceLines(src))
  {
    TypedFit(opt, src, ks);
    OutputMeansTheSame(iocccok, Typed(opt, src), TruthOf(opt.cfg.syms, ks));
    assert Lines(Typed(opt, src)) == SourceLines(src);
  }

  /** The program: type the lines and run the state machine over them. */
  method Unifdef(opt: Options, iocccok: bool, src: seq<Source>) returns (ok: bool, out: seq<Line>)
    ensures ok ==> forall ks: Completions :: SameText(opt.cfg.syms, ks, out, SourceLines(src))
    ensures (forall i :: 0 <= i < |src| ==> !src[i].dodgy) ==>
              (ok <==> WithinLimits(SourceLines(src)) && OpenGroups(SourceLines(src)).File?)
  {
    var p := new Processor(iocccok);
    p.Process(Typed(opt, src));
    ok, out := p.status.Finished?, p.output;
    if ok {
      forall ks: Completions
        ensures SameText(opt.cfg.syms, ks, out, SourceLines(src))
      {
        UnifdefPreservesMeaning(opt, iocccok, src, ks);
      }
    }
    if forall i :: 0 <= i < |src| ==> !src[i].dodgy {
      AcceptsWellNested(opt, iocccok, src);
    }
  }

  lemma AcceptsWellNested(opt: Options, iocccok: bool, src: seq<Source>)
    requires forall i :: 0 <= i < |src| ==> !src[i].dodgy
    ensures RunToEnd(iocccok, Typed(opt, src)).status.Finished? <==>
              WithinLimits(SourceLines(src)) && OpenGroups(SourceLines(src)).File?
  {
    var items := Typed(opt, src);
    var ks: Completions := text => Completion(_ => false, (_, _) => 0, _ => false);
    var truth := TruthOf(opt.cfg.syms, ks);
    TypedFit(opt, src, ks);
    AcceptsExactlyWellNested(iocccok, items, truth);
    assert Lines(items) == SourceLines(src);
  }
}
