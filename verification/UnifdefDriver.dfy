/** The line-by-line driver of unifdef (scripts/unifdef.c): the state machine that decides which
    lines to keep and how to edit directives, over a stack of nested #if groups.

    `Machine` is the specification of the program's global state and `Apply` of its transition
    functions; the class `Processor` is the program itself, with its fixed-size arrays. */
module UnifdefDriver {
  import opened UnifdefEval

  const MAXDEPTH := 64

  // ----- lines --------------------------------------------------------------------------------

  datatype Condition = IfDef(toks: seq<Token>) | IfNDef(toks: seq<Token>) | Expression(toks: seq<Token>)

  datatype Line =
    | IfLine(cond: Condition)
    | ElifLine(cond: Condition)
    | ElseLine
    | EndifLine
    | PlainLine(text: string)

  datatype Kind =
    | TrueI | FalseI | If | True | False | Elif | ElTrue | ElFalse | Else | Endif

  datatype Linetype = Directive(kind: Kind, dodgy: bool) | Plain | Eof | Error

  /** A line together with the type parseline gave it. */
  datatype Item = Item(line: Line, lt: Linetype)

  function Lines(items: seq<Item>): seq<Line> {
    seq(|items|, i requires 0 <= i < |items| => items[i].line)
  }

  /** A line type fits a line: the right directive, and a verdict that the valuation bears out. */
  predicate Fits(item: Item, truth: Condition -> bool) {
    match item.line
    case PlainLine(_) => item.lt.Plain?
    case IfLine(c) =>
      item.lt.Directive? &&
      (match item.lt.kind
       case TrueI => truth(c)
       case True => truth(c)
       case FalseI => !truth(c)
       case False => !truth(c)
       case If => true
       case _ => false)
    case ElifLine(c) =>
      item.lt.Directive? &&
      (match item.lt.kind
       case ElTrue => truth(c)
       case ElFalse => !truth(c)
       case Elif => true
       case _ => false)
    case ElseLine => item.lt.Directive? && item.lt.kind.Else?
    case EndifLine => item.lt.Directive? && item.lt.kind.Endif?
  }

  predicate Dodgy(item: Item) {
    item.lt.Directive? && item.lt.dodgy
  }

  // ----- the transition table -------------------------------------------------------------------

  datatype Ifstate =
    | Outside | FalsePrefix | TruePrefix | PassMiddle | FalseMiddle | TrueMiddle
    | PassElse | FalseElse | TrueElse | FalseTrailer

  datatype Action =
    | Eelif | Eelse | Eendif | Eeof | Eioccc
    | Print | Drop
    | Strue | Sfalse | Selse
    | Pelif | Pelse | Pendif
    | Dfalse | Delif | Delse | Dendif
    | Fdrop | Fpass | Ftrue | Ffalse
    | Oiffy | Oif | Oelif
    | Idrop | Itrue | Ifalse
    | Mpass | Mtrue | Melif | Melse
    | Done | Abort

  /** One row of the table: the clean directives, the dodgy ones, then PLAIN and EOF.
      The last column, ERROR, is `abort` in every row. */
  function Row(t: Linetype,
               truei: Action, falsei: Action, if_: Action, true_: Action, false_: Action,
               elif: Action, eltrue: Action, elfalse: Action, else_: Action, endif: Action,
               dtruei: Action, dfalsei: Action, dif: Action, dtrue: Action, dfalse: Action,
               delif: Action, deltrue: Action, delfalse: Action, delse: Action, dendif: Action,
               plain: Action, eof: Action): Action
  {
    match t
    case Plain => plain
    case Eof => eof
    case Error => Abort
    case Directive(kind, dodgy) =>
      match kind
      case TrueI => if dodgy then dtruei else truei
      case FalseI => if dodgy then dfalsei else falsei
      case If => if dodgy then dif else if_
      case True => if dodgy then dtrue else true_
      case False => if dodgy then dfalse else false_
      case Elif => if dodgy then delif else elif
      case ElTrue => if dodgy then deltrue else eltrue
      case ElFalse => if dodgy then delfalse else elfalse
      case Else => if dodgy then delse else else_
      case Endif => if dodgy then dendif else endif
  }

  function Trans(s: Ifstate, t: Linetype): Action {
    match s
    case Outside => Row(t,
      Itrue, Ifalse, Fpass, Ftrue, Ffalse, Eelif, Eelif, Eelif, Eelse, Eendif,
      Oiffy, Oiffy, Fpass, Oif, Oif, Eelif, Eelif, Eelif, Eelse, Eendif,
      Print, Done)
    case FalsePrefix => Row(t,
      Idrop, Idrop, Fdrop, Fdrop, Fdrop, Mpass, Strue, Sfalse, Selse, Dendif,
      Idrop, Idrop, Fdrop, Fdrop, Fdrop, Mpass, Eioccc, Eioccc, Eioccc, Eioccc,
      Drop, Eeof)
    case TruePrefix => Row(t,
      Itrue, Ifalse, Fpass, Ftrue, Ffalse, Dfalse, Dfalse, Dfalse, Delse, Dendif,
      Oiffy, Oiffy, Fpass, Oif, Oif, Eioccc, Eioccc, Eioccc, Eioccc, Eioccc,
      Print, Eeof)
    case PassMiddle => Row(t,
      Itrue, Ifalse, Fpass, Ftrue, Ffalse, Pelif, Mtrue, Delif, Pelse, Pendif,
      Oiffy, Oiffy, Fpass, Oif, Oif, Pelif, Oelif, Oelif, Pelse, Pendif,
      Print, Eeof)
    case FalseMiddle => Row(t,
      Idrop, Idrop, Fdrop, Fdrop, Fdrop, Pelif, Mtrue, Delif, Pelse, Pendif,
      Idrop, Idrop, Fdrop, Fdrop, Fdrop, Eioccc, Eioccc, Eioccc, Eioccc, Eioccc,
      Drop, Eeof)
    case TrueMiddle => Row(t,
      Itrue, Ifalse, Fpass, Ftrue, Ffalse, Melif, Melif, Melif, Melse, Pendif,
      Oiffy, Oiffy, Fpass, Oif, Oif, Eioccc, Eioccc, Eioccc, Eioccc, Pendif,
      Print, Eeof)
    case PassElse => Row(t,
      Itrue, Ifalse, Fpass, Ftrue, Ffalse, Eelif, Eelif, Eelif, Eelse, Pendif,
      Oiffy, Oiffy, Fpass, Oif, Oif, Eelif, Eelif, Eelif, Eelse, Pendif,
      Print, Eeof)
    case FalseElse => Row(t,
      Idrop, Idrop, Fdrop, Fdrop, Fdrop, Eelif, Eelif, Eelif, Eelse, Dendif,
      Idrop, Idrop, Fdrop, Fdrop, Fdrop, Eelif, Eelif, Eelif, Eelse, Eioccc,
      Drop, Eeof)
    case TrueElse => Row(t,
      Itrue, Ifalse, Fpass, Ftrue, Ffalse, Eelif, Eelif, Eelif, Eelse, Dendif,
      Oiffy, Oiffy, Fpass, Oif, Oif, Eelif, Eelif, Eelif, Eelse, Eioccc,
      Print, Eeof)
    case FalseTrailer => Row(t,
      Idrop, Idrop, Fdrop, Fdrop, Fdrop, Dfalse, Dfalse, Dfalse, Delse, Dendif,
      Idrop, Idrop, Fdrop, Fdrop, Fdrop, Dfalse, Dfalse, Dfalse, Delse, Eioccc,
      Drop, Eeof)
  }

  // ----- the machine ----------------------------------------------------------------------------

  /** `Failed` is error(), which reports and exits; `Finished` is done(); `Aborted` is abort(). */
  datatype Status = Running | Finished | Failed | Aborted

  /** The stack of nested groups.  Depth 0 is outside every group, where the state is
      IS_OUTSIDE and comments are never ignored. */
  datatype Stack = Bottom | Group(state: Ifstate, ignoring: bool, below: Stack)

  function Depth(k: Stack): nat {
    if k.Bottom? then 0 else 1 + Depth(k.below)
  }

  function Top(k: Stack): Ifstate {
    if k.Bottom? then Outside else k.state
  }

  function Ignoring(k: Stack): bool {
    k.Group? && k.ignoring
  }

  predicate Shaped(k: Stack) {
    k.Group? ==> k.state != Outside && Shaped(k.below)
  }

  datatype Moved = Moved(status: Status, stack: Stack)

  /** ignoreoff(); state(s) */
  function Turn(k: Stack, s: Ifstate): Moved {
    if k.Bottom? then Moved(Aborted, k) else Moved(Running, Group(s, Ignoring(k.below), k.below))
  }

  /** state(s) */
  function Become(k: Stack, s: Ifstate): Moved {
    if k.Bottom? then Moved(Aborted, k) else Moved(Running, k.(state := s))
  }

  /** nest(); ignoreoff(); state(s), and ignoreon() if asked for */
  function Open(k: Stack, s: Ifstate, ignore: bool): Moved {
    if Depth(k) > MAXDEPTH - 1 then Moved(Aborted, k)
    else if Depth(k) == MAXDEPTH - 1 then Moved(Failed, k)
    else Moved(Running, Group(s, ignore || Ignoring(k), k))
  }

  /** unnest() */
  function Close(k: Stack): Moved {
    if k.Bottom? then Moved(Aborted, k) else Moved(Running, k.below)
  }

  /** What becomes of a line: dropped, written as it is, or written with another keyword. */
  datatype Edit = Dropped | Kept | ToIf | ToElse | ToEndif

  /** What becomes of the stack. */
  datatype Target =
    | Stays
    | Opens(s: Ifstate, ignore: bool)
    | Turns(s: Ifstate, off: bool)
    | Closes
    | Stops
    | Finishes
    | Aborts

  datatype Effect = Effect(edit: Edit, target: Target)

  /** The effect of each transition function. */
  function EffectOf(a: Action, iocccok: bool): Effect {
    match a
    case Print => Effect(Kept, Stays)
    case Drop => Effect(Dropped, Stays)
    case Strue => Effect(Dropped, Turns(TruePrefix, true))
    case Sfalse => Effect(Dropped, Turns(FalsePrefix, true))
    case Selse => Effect(Dropped, Turns(TrueElse, false))
    case Pelif => Effect(Kept, Turns(PassMiddle, true))
    case Pelse => Effect(Kept, Turns(PassElse, false))
    case Pendif => Effect(Kept, Closes)
    case Dfalse => Effect(Dropped, Turns(FalseTrailer, true))
    case Delif => Effect(Dropped, Turns(FalseMiddle, true))
    case Delse => Effect(Dropped, Turns(FalseElse, false))
    case Dendif => Effect(Dropped, Closes)
    case Fdrop => Effect(Dropped, Opens(FalseTrailer, false))
    case Fpass => Effect(Kept, Opens(PassMiddle, false))
    case Ftrue => Effect(Dropped, Opens(TruePrefix, false))
    case Ffalse => Effect(Dropped, Opens(FalsePrefix, false))
    case Oiffy => if iocccok then Effect(Kept, Opens(PassMiddle, true)) else Effect(Dropped, Stops)
    case Oif => if iocccok then Effect(Kept, Opens(PassMiddle, false)) else Effect(Dropped, Stops)
    case Oelif => if iocccok then Effect(Kept, Turns(PassMiddle, true)) else Effect(Dropped, Stops)
    case Idrop => Effect(Dropped, Opens(FalseTrailer, true))
    case Itrue => Effect(Dropped, Opens(TruePrefix, true))
    case Ifalse => Effect(Dropped, Opens(FalsePrefix, true))
    case Mpass => Effect(ToIf, Turns(PassMiddle, true))
    case Mtrue => Effect(ToElse, Turns(TrueMiddle, false))
    case Melif => Effect(ToEndif, Turns(FalseTrailer, false))
    case Melse => Effect(ToEndif, Turns(FalseElse, false))
    case Done => Effect(Dropped, Finishes)
    case Abort => Effect(Dropped, Aborts)
    case Eelif => Effect(Dropped, Stops)
    case Eelse => Effect(Dropped, Stops)
    case Eendif => Effect(Dropped, Stops)
    case Eeof => Effect(Dropped, Stops)
    case Eioccc => Effect(Dropped, Stops)
  }

  function MoveTo(k: Stack, t: Target): Moved {
    match t
    case Stays => Moved(Running, k)
    case Opens(s, ignore) => Open(k, s, ignore)
    case Turns(s, off) => if off then Turn(k, s) else Become(k, s)
    case Closes => Close(k)
    case Stops => Moved(Failed, k)
    case Finishes => Moved(Finished, k)
    case Aborts => Moved(Aborted, k)
  }

  /** What is written for a line; an edit to "if" keeps the condition. */
  function EditLine(e: Edit, line: Line): seq<Line> {
    match e
    case Dropped => []
    case Kept => [line]
    case ToIf => [if line.ElifLine? then IfLine(line.cond) else line]
    case ToElse => [ElseLine]
    case ToEndif => [EndifLine]
  }

  datatype Machine = Machine(stack: Stack, out: seq<Line>, status: Status, iocccok: bool)

  function Start(iocccok: bool): Machine {
    Machine(Bottom, [], Running, iocccok)
  }

  function Step(m: Machine, item: Item): Machine {
    if !m.status.Running? then m
    else
      var e := EffectOf(Trans(Top(m.stack), item.lt), m.iocccok);
      var moved := MoveTo(m.stack, e.target);
      Machine(moved.stack,
              if moved.status.Running? then m.out + EditLine(e.edit, item.line) else m.out,
              moved.status, m.iocccok)
  }

  /** What the table guarantees whatever the machine looks like: abort() is never an entry, groups
      are turned and closed only inside a group, and the program ends only outside every group. */
  lemma {:induction false} TableDiscipline(s: Ifstate, t: Linetype, iocccok: bool)
    requires !t.Error?
    ensures var target := EffectOf(Trans(s, t), iocccok).target;
            && !target.Aborts?
            && (target.Turns? || target.Closes? ==> !s.Outside?)
            && (target.Turns? || target.Opens? ==> !target.s.Outside?)
            && (target.Finishes? ==> s.Outside?)
  {
  }

  /** The stack is in order, abort() has not been reached, and a finished run closed every group. */
  predicate Sane(m: Machine) {
    && Shaped(m.stack) && Depth(m.stack) <= MAXDEPTH - 1
    && !m.status.Aborted?
    && (m.status.Finished? ==> m.stack.Bottom?)
  }

  lemma {:induction false} StepSane(m: Machine, item: Item)
    requires Sane(m) && !item.lt.Error?
    ensures Sane(Step(m, item)) && Step(m, item).iocccok == m.iocccok
  {
    if m.status.Running? {
      TableDiscipline(Top(m.stack), item.lt, m.iocccok);
    }
  }

  /** The state after some lines have been processed.  No run reaches abort(). */
  function Run(iocccok: bool, items: seq<Item>): (m: Machine)
    requires forall i :: 0 <= i < |items| ==> !items[i].lt.Error?
    ensures Sane(m) && m.iocccok == iocccok
  {
    if items == [] then Start(iocccok)
    else
      var m := Run(iocccok, items[..|items| - 1]);
      StepSane(m, items[|items| - 1]);
      Step(m, items[|items| - 1])
  }

  const EOF_ITEM := Item(PlainLine(""), Eof)

  /** The whole program: the lines, then the end of the file. */
  function RunToEnd(iocccok: bool, items: seq<Item>): (m: Machine)
    requires forall i :: 0 <= i < |items| ==> !items[i].lt.Error?
    ensures Sane(m) && !m.status.Running?
  {
    var m := Run(iocccok, items);
    StepSane(m, EOF_ITEM);
    Step(m, EOF_ITEM)
  }
}
