/** What unifdef promises: conditional inclusion (section 6.10.1 of ISO/IEC 9899:1999) selects the
    same text from its output as from its input, whatever the unknown conditions turn out to be. */
module UnifdefMeaning {
  import opened UnifdefDriver

  // ----- conditional inclusion --------------------------------------------------------------------

  /** An open #if group: whether the text around it is selected, whether one of its sections has
      already been chosen, whether the current section is selected, and whether #else was seen. */
  datatype Section = Section(outer: bool, taken: bool, live: bool, elseSeen: bool)

  datatype Nest = Level0 | In(s: Section, below: Nest)

  function Live(n: Nest): bool {
    n.Level0? || n.s.live
  }

  /** What nesting sees of a line: which directive, and whether its condition holds. */
  datatype Shape = SIf(holds: bool) | SElif(holds: bool) | SElse | SEndif | SPlain

  function ShapeOf(line: Line, truth: Condition -> bool): Shape {
    match line
    case PlainLine(_) => SPlain
    case IfLine(c) => SIf(truth(c))
    case ElifLine(c) => SElif(truth(c))
    case ElseLine => SElse
    case EndifLine => SEndif
  }

  /** The section that an #elif, or an #else, opens next. */
  function NextElif(s: Section, holds: bool): Section {
    Section(s.outer, s.taken || holds, s.outer && !s.taken && holds, false)
  }

  function NextElse(s: Section): Section {
    Section(s.outer, true, s.outer && !s.taken, true)
  }

  function FirstSection(outer: bool, holds: bool): Section {
    Section(outer, holds, outer && holds, false)
  }

  datatype NestResult = IllNested | Nested(nest: Nest)

  /** The effect of a line on the nesting, or IllNested. */
  function NestStep(n: Nest, d: Shape): NestResult {
    match d
    case SPlain => Nested(n)
    case SIf(b) => Nested(In(FirstSection(Live(n), b), n))
    case SElif(b) =>
      if n.Level0? || n.s.elseSeen then IllNested else Nested(In(NextElif(n.s, b), n.below))
    case SElse =>
      if n.Level0? || n.s.elseSeen then IllNested else Nested(In(NextElse(n.s), n.below))
    case SEndif =>
      if n.Level0? then IllNested else Nested(n.below)
  }

  /** Which conditions hold, after which selected text: a #define or #undef in the text may change what
      an unknown symbol means from there on. */
  type Truth = (seq<string>, Condition) -> bool

  function At(truth: Truth, text: seq<string>): Condition -> bool {
    c => truth(text, c)
  }

  /** The selected text so far, or Bad for an ill-nested file. */
  datatype Cpp = Bad | Cpp(nest: Nest, text: seq<string>)

  function Cpp1(c: Cpp, line: Line, truth: Truth): Cpp {
    if c.Bad? then Bad
    else
      match NestStep(c.nest, ShapeOf(line, At(truth, c.text)))
      case IllNested => Bad
      case Nested(n) => Cpp(n, if line.PlainLine? && Live(c.nest) then c.text + [line.text] else c.text)
  }

  function Preprocess(lines: seq<Line>, truth: Truth): Cpp {
    if lines == [] then Cpp(Level0, [])
    else Cpp1(Preprocess(lines[..|lines| - 1], truth), lines[|lines| - 1], truth)
  }

  // ----- the invariant relating the machine, its input and its output ---------------------------------

  /** Whether the machine prints plain lines in this state. */
  predicate Printing(s: Ifstate) {
    s.Outside? || s.TruePrefix? || s.PassMiddle? || s.TrueMiddle? || s.PassElse? || s.TrueElse?
  }

  /** Whether the output holds an unclosed #if for a group in this state. */
  predicate OpenInOutput(s: Ifstate) {
    s.PassMiddle? || s.FalseMiddle? || s.TrueMiddle? || s.PassElse?
  }

  /** A group that has left no trace in the output, or whose #endif is already written. */
  predicate AgreesClosed(s: Ifstate, i: Section, printing: bool) {
    match s
    case FalsePrefix => printing && !i.taken && !i.live && !i.elseSeen
    case TruePrefix => printing && i.taken && i.live == i.outer && !i.elseSeen
    case TrueElse => printing && i.live == i.outer && i.elseSeen
    case FalseElse => !i.live && i.elseSeen
    case FalseTrailer => !i.live && !i.elseSeen && (i.taken || !i.outer)
    case _ => false
  }

  /** A group that is also open in the output. */
  predicate AgreesOpen(s: Ifstate, i: Section, o: Section) {
    match s
    case PassMiddle => i.taken == o.taken && i.live == o.live && !i.elseSeen && !o.elseSeen
    case FalseMiddle => i.taken == o.taken && !i.live && !i.elseSeen && !o.elseSeen
    case TrueMiddle => i.taken && i.live == o.live && !i.elseSeen && o.elseSeen
    case PassElse => i.live == o.live && i.elseSeen && o.elseSeen
    case _ => false
  }

  /** The stack, the nesting of the input read so far, and that of the output written so far. */
  predicate Matches(k: Stack, i: Nest, o: Nest) {
    match k
    case Bottom => i.Level0? && o.Level0?
    case Group(s, _, below) =>
      && i.In?
      && i.s.outer == Live(i.below)
      && (if OpenInOutput(s) then
            && o.In?
            && o.s.outer == Live(o.below)
            && Printing(Top(below))
            && AgreesOpen(s, i.s, o.s)
            && Matches(below, i.below, o.below)
          else
            && AgreesClosed(s, i.s, Printing(Top(below)))
            && Matches(below, i.below, o))
  }

  /** Where the machine prints, input and output are selected alike; where it drops lines, the
      input is not selected. */
  lemma {:induction false} LiveAgrees(k: Stack, i: Nest, o: Nest)
    requires Matches(k, i, o)
    ensures if Printing(Top(k)) then Live(i) == Live(o) else !Live(i)
    decreases k
  {
    if k.Group? {
      if OpenInOutput(k.state) {
        LiveAgrees(k.below, i.below, o.below);
      } else {
        LiveAgrees(k.below, i.below, o);
      }
    }
  }

  function Levels(n: Nest): nat {
    if n.Level0? then 0 else 1 + Levels(n.below)
  }

  lemma {:induction false} MatchesDepth(k: Stack, i: Nest, o: Nest)
    requires Matches(k, i, o)
    ensures Depth(k) == Levels(i)
    decreases k
  {
    if k.Group? {
      MatchesDepth(k.below, i.below, if OpenInOutput(k.state) then o.below else o);
    }
  }

  // ----- what the table can choose ----------------------------------------------------------------------

  predicate OpeningEffect(s: Ifstate, kind: Kind, e: Effect) {
    || e.target.Stops?
    || (e.target.Opens? &&
        if !Printing(s) then e.edit.Dropped? && e.target.s.FalseTrailer?
        else
          || (e.edit.Kept? && e.target.s.PassMiddle?)
          || (e.edit.Dropped? && e.target.s.TruePrefix? && (kind.True? || kind.TrueI?))
          || (e.edit.Dropped? && e.target.s.FalsePrefix? && (kind.False? || kind.FalseI?)))
  }

  predicate ElifEffect(s: Ifstate, kind: Kind, e: Effect) {
    || e.target.Stops?
    || (e.target.Turns? &&
        match s
        case FalsePrefix =>
          || (e.edit.ToIf? && e.target.s.PassMiddle?)
          || (e.edit.Dropped? && e.target.s.TruePrefix? && kind.ElTrue?)
          || (e.edit.Dropped? && e.target.s.FalsePrefix? && kind.ElFalse?)
        case TruePrefix => e.edit.Dropped? && e.target.s.FalseTrailer?
        case FalseTrailer => e.edit.Dropped? && e.target.s.FalseTrailer?
        case TrueMiddle => e.edit.ToEndif? && e.target.s.FalseTrailer?
        case PassMiddle => MiddleElif(kind, e.edit, e.target.s)
        case FalseMiddle => MiddleElif(kind, e.edit, e.target.s)
        case _ => false)
  }

  predicate MiddleElif(kind: Kind, e: Edit, s': Ifstate) {
    || (e.Kept? && s'.PassMiddle?)
    || (e.ToElse? && s'.TrueMiddle? && kind.ElTrue?)
    || (e.Dropped? && s'.FalseMiddle? && kind.ElFalse?)
  }

  predicate ElseEffect(s: Ifstate, e: Effect) {
    || e.target.Stops?
    || (e.target.Turns? &&
        match s
        case FalsePrefix => e.edit.Dropped? && e.target.s.TrueElse?
        case TruePrefix => e.edit.Dropped? && e.target.s.FalseElse?
        case FalseTrailer => e.edit.Dropped? && e.target.s.FalseElse?
        case TrueMiddle => e.edit.ToEndif? && e.target.s.FalseElse?
        case PassMiddle => e.edit.Kept? && e.target.s.PassElse?
        case FalseMiddle => e.edit.Kept? && e.target.s.PassElse?
        case _ => false)
  }

  predicate EndifEffect(s: Ifstate, e: Effect) {
    || e.target.Stops?
    || (e.target.Closes? && !s.Outside? && (if OpenInOutput(s) then e.edit.Kept? else e.edit.Dropped?))
  }

  /** A section may still be followed by #elif and #else. */
  predicate BeforeElse(s: Ifstate) {
    !s.Outside? && !s.PassElse? && !s.FalseElse? && !s.TrueElse?
  }

  lemma {:induction false} TableOpening(s: Ifstate, t: Linetype, iocccok: bool)
    requires t.Directive? && (t.kind.TrueI? || t.kind.FalseI? || t.kind.If? || t.kind.True? || t.kind.False?)
    ensures var e := EffectOf(Trans(s, t), iocccok);
            OpeningEffect(s, t.kind, e) && (!t.dodgy ==> !e.target.Stops?)
  {
  }

  lemma {:induction false} TableElif(s: Ifstate, t: Linetype, iocccok: bool)
    requires t.Directive? && (t.kind.Elif? || t.kind.ElTrue? || t.kind.ElFalse?)
    ensures var e := EffectOf(Trans(s, t), iocccok);
            ElifEffect(s, t.kind, e) && (!t.dodgy && BeforeElse(s) ==> !e.target.Stops?)
  {
  }

  lemma {:induction false} TableElse(s: Ifstate, dodgy: bool, iocccok: bool)
    ensures var e := EffectOf(Trans(s, Directive(Else, dodgy)), iocccok);
            ElseEffect(s, e) && (!dodgy && BeforeElse(s) ==> !e.target.Stops?)
  {
  }

  lemma {:induction false} TableEndif(s: Ifstate, dodgy: bool, iocccok: bool)
    ensures var e := EffectOf(Trans(s, Directive(Endif, dodgy)), iocccok);
            EndifEffect(s, e) && (!dodgy && !s.Outside? ==> !e.target.Stops?)
  {
  }

  lemma {:induction false} TablePlain(s: Ifstate, iocccok: bool)
    ensures EffectOf(Trans(s, Plain), iocccok) == Effect(if Printing(s) then Kept else Dropped, Stays)
  {
  }

  // ----- one line ------------------------------------------------------------------------------------

  /** The effect of an edited line on the nesting of the output. */
  function OutputStep(n: Nest, e: Edit, d: Shape): NestResult {
    match e
    case Dropped => Nested(n)
    case Kept => NestStep(n, d)
    case ToIf => NestStep(n, if d.SElif? then SIf(d.holds) else d)
    case ToElse => NestStep(n, SElse)
    case ToEndif => NestStep(n, SEndif)
  }

  /** Input and output agree after an edit and a move. */
  predicate Keeps(e: Edit, d: Shape, i: Nest, o: Nest, k': Stack) {
    var i', o' := NestStep(i, d), OutputStep(o, e, d);
    i'.Nested? && o'.Nested? && Matches(k', i'.nest, o'.nest)
  }

  lemma {:induction false} KeepsOpening(k: Stack, e: Effect, kind: Kind, holds: bool, g: bool, i: Nest, o: Nest)
    requires Matches(k, i, o) && OpeningEffect(Top(k), kind, e) && !e.target.Stops?
    requires (kind.True? || kind.TrueI? ==> holds) && (kind.False? || kind.FalseI? ==> !holds)
    ensures Keeps(e.edit, SIf(holds), i, o, Group(e.target.s, g, k))
  {
    LiveAgrees(k, i, o);
  }

  lemma {:induction false} KeepsElifClosed(k: Stack, e: Effect, kind: Kind, holds: bool, g: bool, i: Nest, o: Nest)
    requires Matches(k, i, o) && k.Group? && ElifEffect(k.state, kind, e) && !e.target.Stops?
    requires (kind.ElTrue? ==> holds) && (kind.ElFalse? ==> !holds)
    requires !OpenInOutput(k.state)
    ensures Keeps(e.edit, SElif(holds), i, o, Group(e.target.s, g, k.below))
  {
    LiveAgrees(k.below, i.below, o);
  }

  lemma {:induction false} KeepsElifOpen(k: Stack, e: Effect, kind: Kind, holds: bool, g: bool, i: Nest, o: Nest)
    requires Matches(k, i, o) && k.Group? && ElifEffect(k.state, kind, e) && !e.target.Stops?
    requires (kind.ElTrue? ==> holds) && (kind.ElFalse? ==> !holds)
    requires OpenInOutput(k.state)
    ensures Keeps(e.edit, SElif(holds), i, o, Group(e.target.s, g, k.below))
  {
    LiveAgrees(k.below, i.below, o.below);
  }

  lemma {:induction false} KeepsElse(k: Stack, e: Effect, g: bool, i: Nest, o: Nest)
    requires Matches(k, i, o) && k.Group? && ElseEffect(k.state, e) && !e.target.Stops?
    ensures Keeps(e.edit, SElse, i, o, Group(e.target.s, g, k.below))
  {
    LiveAgrees(k.below, i.below, if OpenInOutput(k.state) then o.below else o);
  }

  lemma {:induction false} KeepsEndif(k: Stack, e: Effect, i: Nest, o: Nest)
    requires Matches(k, i, o) && k.Group? && EndifEffect(k.state, e) && !e.target.Stops?
    ensures Keeps(e.edit, SEndif, i, o, k.below)
  {
  }

  /** If the machine goes on past a line, the line was well nested and input and output still
      agree; and it does go on past every well-nested clean line that is not nested too deeply. */
  predicate StepAgrees(k: Stack, e: Effect, d: Shape, clean: bool, i: Nest, o: Nest) {
    var r := MoveTo(k, e.target);
    && !r.status.Finished?
    && (r.status.Running? ==> Keeps(e.edit, d, i, o, r.stack))
    && (clean && NestStep(i, d).Nested? && Levels(NestStep(i, d).nest) < MAXDEPTH ==> r.status.Running?)
  }

  lemma {:induction false} OpeningAgrees(k: Stack, t: Linetype, holds: bool, i: Nest, o: Nest, e: Effect)
    requires Matches(k, i, o) && t.Directive?
    requires OpeningEffect(Top(k), t.kind, e) && (!t.dodgy ==> !e.target.Stops?)
    requires (t.kind.True? || t.kind.TrueI? ==> holds) && (t.kind.False? || t.kind.FalseI? ==> !holds)
    ensures StepAgrees(k, e, SIf(holds), !t.dodgy, i, o)
  {
    MatchesDepth(k, i, o);
    if !e.target.Stops? {
      KeepsOpening(k, e, t.kind, holds, e.target.ignore || Ignoring(k), i, o);
    }
  }

  lemma {:induction false} ElifAgrees(k: Stack, t: Linetype, holds: bool, i: Nest, o: Nest, e: Effect)
    requires Matches(k, i, o) && t.Directive?
    requires ElifEffect(Top(k), t.kind, e) && (!t.dodgy && BeforeElse(Top(k)) ==> !e.target.Stops?)
    requires (t.kind.ElTrue? ==> holds) && (t.kind.ElFalse? ==> !holds)
    ensures StepAgrees(k, e, SElif(holds), !t.dodgy, i, o)
  {
    if k.Group? && !e.target.Stops? {
      var g := if e.target.off then Ignoring(k.below) else k.ignoring;
      if OpenInOutput(k.state) {
        KeepsElifOpen(k, e, t.kind, holds, g, i, o);
      } else {
        KeepsElifClosed(k, e, t.kind, holds, g, i, o);
      }
    }
  }

  lemma {:induction false} ElseAgrees(k: Stack, dodgy: bool, i: Nest, o: Nest, e: Effect)
    requires Matches(k, i, o)
    requires ElseEffect(Top(k), e) && (!dodgy && BeforeElse(Top(k)) ==> !e.target.Stops?)
    ensures StepAgrees(k, e, SElse, !dodgy, i, o)
  {
    if k.Group? && !e.target.Stops? {
      KeepsElse(k, e, if e.target.off then Ignoring(k.below) else k.ignoring, i, o);
    }
  }

  lemma {:induction false} EndifAgrees(k: Stack, dodgy: bool, i: Nest, o: Nest, e: Effect)
    requires Matches(k, i, o)
    requires EndifEffect(Top(k), e) && (!dodgy && !Top(k).Outside? ==> !e.target.Stops?)
    ensures StepAgrees(k, e, SEndif, !dodgy, i, o)
  {
    if k.Group? && !e.target.Stops? {
      KeepsEndif(k, e, i, o);
    }
  }

  lemma {:induction false} LineAgrees(k: Stack, item: Item, i: Nest, o: Nest, truth: Condition -> bool, iocccok: bool)
    requires Matches(k, i, o) && Fits(item, truth)
    ensures StepAgrees(k, EffectOf(Trans(Top(k), item.lt), iocccok), ShapeOf(item.line, truth), !Dodgy(item), i, o)
  {
    var t := item.lt;
    var e := EffectOf(Trans(Top(k), t), iocccok);
    match item.line
    case PlainLine(_) =>
      TablePlain(Top(k), iocccok);
    case IfLine(c) =>
      TableOpening(Top(k), t, iocccok);
      OpeningAgrees(k, t, truth(c), i, o, e);
    case ElifLine(c) =>
      TableElif(Top(k), t, iocccok);
      ElifAgrees(k, t, truth(c), i, o, e);
    case ElseLine =>
      TableElse(Top(k), t.dodgy, iocccok);
      ElseAgrees(k, t.dodgy, i, o, e);
    case EndifLine =>
      TableEndif(Top(k), t.dodgy, iocccok);
      EndifAgrees(k, t.dodgy, i, o, e);
  }

  // ----- whole runs -----------------------------------------------------------------------------------

  /** The machine is at the same place in its input as in its output, as the preprocessor sees it. */
  predicate Simulates(k: Stack, input: Cpp, output: Cpp) {
    && input.Cpp? && output.Cpp?
    && input.text == output.text
    && Matches(k, input.nest, output.nest)
  }

  lemma {:induction false} AppendPreprocess(out: seq<Line>, line: Line, truth: Truth)
    ensures Preprocess(out + [line], truth) == Cpp1(Preprocess(out, truth), line, truth)
  {
    assert (out + [line])[..|out|] == out;
  }

  /** The preprocessor reads what an edit has appended to the output. */
  lemma {:induction false} AppendEdit(out: seq<Line>, e: Edit, line: Line, truth: Truth)
    requires Preprocess(out, truth).Cpp?
    requires OutputStep(Preprocess(out, truth).nest, e, ShapeOf(line, At(truth, Preprocess(out, truth).text))).Nested?
    requires line.PlainLine? ==> e.Kept? || e.Dropped?
    ensures var c := Preprocess(out, truth);
            Preprocess(out + EditLine(e, line), truth) ==
            Cpp(OutputStep(c.nest, e, ShapeOf(line, At(truth, c.text))).nest,
                if line.PlainLine? && e.Kept? && Live(c.nest) then c.text + [line.text] else c.text)
  {
    if e.Dropped? {
      assert out + EditLine(e, line) == out;
    } else {
      AppendPreprocess(out, EditLine(e, line)[0], truth);
    }
  }

  /** The type fits the line whatever text comes before it. */
  ghost predicate FitsAlways(item: Item, truth: Truth) {
    !item.lt.Error? && forall text :: Fits(item, At(truth, text))
  }

  lemma {:induction false} StepSimulates(m: Machine, item: Item, input: Cpp, truth: Truth)
    requires Sane(m) && m.status.Running? && FitsAlways(item, truth)
    requires Simulates(m.stack, input, Preprocess(m.out, truth))
    ensures var m', input' := Step(m, item), Cpp1(input, item.line, truth);
            && !m'.status.Finished?
            && (m'.status.Running? ==> Simulates(m'.stack, input', Preprocess(m'.out, truth)))
            && (!Dodgy(item) && input'.Cpp? && Levels(input'.nest) < MAXDEPTH ==> m'.status.Running?)
  {
    var k, output := m.stack, Preprocess(m.out, truth);
    var e := EffectOf(Trans(Top(k), item.lt), m.iocccok);
    LineAgrees(k, item, input.nest, output.nest, At(truth, input.text), m.iocccok);
    if MoveTo(k, e.target).status.Running? {
      if item.line.PlainLine? {
        TablePlain(Top(k), m.iocccok);
        LiveAgrees(k, input.nest, output.nest);
      }
      AppendEdit(m.out, e.edit, item.line, truth);
    }
  }

  ghost predicate AllFit(items: seq<Item>, truth: Truth) {
    forall n :: 0 <= n < |items| ==> FitsAlways(items[n], truth)
  }

  lemma {:induction false} LinesPrefix(items: seq<Item>)
    requires items != []
    ensures Lines(items)[..|items| - 1] == Lines(items[..|items| - 1])
    ensures Lines(items)[|items| - 1] == items[|items| - 1].line
  {
  }

  lemma {:induction false} RunSimulates(iocccok: bool, items: seq<Item>, truth: Truth)
    requires AllFit(items, truth)
    ensures Run(iocccok, items).status.Running? ==>
              Simulates(Run(iocccok, items).stack, Preprocess(Lines(items), truth),
                        Preprocess(Run(iocccok, items).out, truth))
    ensures !Run(iocccok, items).status.Finished?
  {
    if items != [] {
      var items', item := items[..|items| - 1], items[|items| - 1];
      RunSimulates(iocccok, items', truth);
      LinesPrefix(items);
      if Run(iocccok, items').status.Running? {
        StepSimulates(Run(iocccok, items'), item, Preprocess(Lines(items'), truth), truth);
      }
    }
  }

  /** The promise of unifdef.  If the program comes to its normal end, then under every valuation
      that bears out the verdicts it was given, also if it changes with the text selected before, the
      preprocessor accepts the output as well nested and selects from it exactly the text it selects
      from the input. */
  lemma OutputMeansTheSame(iocccok: bool, items: seq<Item>, truth: Truth)
    requires AllFit(items, truth) && RunToEnd(iocccok, items).status.Finished?
    ensures Preprocess(RunToEnd(iocccok, items).out, truth) == Preprocess(Lines(items), truth)
    ensures Preprocess(Lines(items), truth).Cpp? && Preprocess(Lines(items), truth).nest.Level0?
  {
    RunSimulates(iocccok, items, truth);
  }

  // ----- which files are accepted ------------------------------------------------------------------------

  /** The groups open after some lines, and which of them have had their #else. */
  datatype Groups = IllFormed | File | Inside(elseSeen: bool, outer: Groups)

  function OpenGroups(lines: seq<Line>): Groups {
    if lines == [] then File
    else
      var g := OpenGroups(lines[..|lines| - 1]);
      match lines[|lines| - 1]
      case PlainLine(_) => g
      case IfLine(_) => if g.IllFormed? then g else Inside(false, g)
      case ElifLine(_) => if g.Inside? && !g.elseSeen then g else IllFormed
      case ElseLine => if g.Inside? && !g.elseSeen then Inside(true, g.outer) else IllFormed
      case EndifLine => if g.Inside? then g.outer else IllFormed
  }

  function Count(g: Groups): nat {
    if g.Inside? then 1 + Count(g.outer) else 0
  }

  /** The groups are those of the preprocessor's nesting. */
  predicate SameGroups(g: Groups, n: Nest) {
    match n
    case Level0 => g.File?
    case In(s, below) => g.Inside? && g.elseSeen == s.elseSeen && SameGroups(g.outer, below)
  }

  lemma {:induction false} SameGroupsCount(g: Groups, n: Nest)
    requires SameGroups(g, n)
    ensures Count(g) == Levels(n) && !g.IllFormed?
    decreases n
  {
    if n.In? {
      SameGroupsCount(g.outer, n.below);
    }
  }

  lemma {:induction false} GroupsOfPreprocess(lines: seq<Line>, truth: Truth)
    ensures Preprocess(lines, truth).Bad? <==> OpenGroups(lines).IllFormed?
    ensures Preprocess(lines, truth).Cpp? ==> SameGroups(OpenGroups(lines), Preprocess(lines, truth).nest)
  {
    if lines != [] {
      GroupsOfPreprocess(lines[..|lines| - 1], truth);
      if Preprocess(lines[..|lines| - 1], truth).Cpp? {
        SameGroupsCount(OpenGroups(lines[..|lines| - 1]), Preprocess(lines[..|lines| - 1], truth).nest);
        if Preprocess(lines, truth).Cpp? {
          assert SameGroups(OpenGroups(lines), Preprocess(lines, truth).nest);
        }
      }
    }
  }

  /** No prefix of the file is ill formed or nests deeper than the translation limit allows. */
  predicate WithinLimits(lines: seq<Line>) {
    forall n :: 0 <= n <= |lines| ==> !OpenGroups(lines[..n]).IllFormed? && Count(OpenGroups(lines[..n])) < MAXDEPTH
  }

  lemma {:induction false} LimitsPrefix(lines: seq<Line>)
    requires lines != []
    ensures WithinLimits(lines) <==>
              WithinLimits(lines[..|lines| - 1]) && !OpenGroups(lines).IllFormed? && Count(OpenGroups(lines)) < MAXDEPTH
  {
    var init := lines[..|lines| - 1];
    assert forall n :: 0 <= n < |lines| ==> lines[..n] == init[..n];
    assert lines[..|lines|] == lines;
    if WithinLimits(lines) {
      assert forall n :: 0 <= n <= |init| ==> init[..n] == lines[..n];
    }
  }

  lemma {:induction false} RunGoesOn(iocccok: bool, items: seq<Item>, truth: Truth)
    requires AllFit(items, truth) && forall n :: 0 <= n < |items| ==> !Dodgy(items[n])
    ensures Run(iocccok, items).status.Running? <==> WithinLimits(Lines(items))
  {
    if items == [] {
      assert Lines(items) == [];
    } else {
      var items', item := items[..|items| - 1], items[|items| - 1];
      RunGoesOn(iocccok, items', truth);
      LinesPrefix(items);
      LimitsPrefix(Lines(items));
      var m := Run(iocccok, items');
      if m.status.Running? {
        RunSimulates(iocccok, items', truth);
        RunSimulates(iocccok, items, truth);
        StepSimulates(m, item, Preprocess(Lines(items'), truth), truth);
        GroupsOfPreprocess(Lines(items), truth);
        var c := Preprocess(Lines(items), truth);
        if c.Cpp? {
          SameGroupsCount(OpenGroups(Lines(items)), c.nest);
          var m' := Run(iocccok, items);
          if m'.status.Running? {
            MatchesDepth(m'.stack, c.nest, Preprocess(m'.out, truth).nest);
          }
        }
      }
    }
  }

  /** A file of clean directives is processed to its end exactly if it is well nested and nests
      no deeper than the limit; otherwise the program stops with an error message. */
  lemma AcceptsExactlyWellNested(iocccok: bool, items: seq<Item>, truth: Truth)
    requires AllFit(items, truth) && forall n :: 0 <= n < |items| ==> !Dodgy(items[n])
    ensures RunToEnd(iocccok, items).status.Finished? <==>
              WithinLimits(Lines(items)) && OpenGroups(Lines(items)).File?
  {
    RunGoesOn(iocccok, items, truth);
    RunSimulates(iocccok, items, truth);
    var m := Run(iocccok, items);
    if m.status.Running? {
      GroupsOfPreprocess(Lines(items), truth);
      MatchesDepth(m.stack, Preprocess(Lines(items), truth).nest, Preprocess(m.out, truth).nest);
      SameGroupsCount(OpenGroups(Lines(items)), Preprocess(Lines(items), truth).nest);
    }
  }
}
