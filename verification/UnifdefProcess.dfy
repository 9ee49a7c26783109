/** The program: unifdef's global state in fixed-size arrays, its state machine utility functions,
    its transition functions and its main loop, proved to compute what `UnifdefDriver` specifies. */
module UnifdefProcess {
  import opened UnifdefDriver

  /** The stack held in the arrays up to a depth. */
  function StackOf(ifs: seq<Ifstate>, ign: seq<bool>, depth: nat): Stack
    requires depth < |ifs| && depth < |ign|
  {
    if depth == 0 then Bottom else Group(ifs[depth], ign[depth], StackOf(ifs, ign, depth - 1))
  }

  lemma {:induction false} StackOfPrefix(a: seq<Ifstate>, b: seq<bool>, a': seq<Ifstate>, b': seq<bool>, depth: nat)
    requires depth < |a| && depth < |b| && depth < |a'| && depth < |b'|
    requires forall i :: 0 <= i <= depth ==> a[i] == a'[i] && b[i] == b'[i]
    ensures StackOf(a, b, depth) == StackOf(a', b', depth)
  {
    if depth > 0 {
      StackOfPrefix(a, b, a', b', depth - 1);
    }
  }

  lemma {:induction false} StackOfDepth(a: seq<Ifstate>, b: seq<bool>, depth: nat)
    requires depth < |a| && depth < |b|
    ensures Depth(StackOf(a, b, depth)) == depth
  {
    if depth > 0 {
      StackOfDepth(a, b, depth - 1);
    }
  }

  lemma {:induction false} StackOfTop(a: seq<Ifstate>, b: seq<bool>, depth: nat, s: Ifstate, g: bool)
    requires 0 < depth < |a| && depth < |b|
    ensures StackOf(a[depth := s], b[depth := g], depth) == Group(s, g, StackOf(a, b, depth - 1))
    ensures !b[0] ==> Ignoring(StackOf(a, b, depth - 1)) == b[depth - 1]
  {
    StackOfPrefix(a, b, a[depth := s], b[depth := g], depth - 1);
  }

  class Processor {
    const iocccok: bool
    const ifstate: array<Ifstate>
    const ignoring: array<bool>
    var depth: nat
    var output: seq<Line>
    var status: Status

    ghost predicate Valid()
      reads this, ifstate, ignoring
    {
      && ifstate.Length == MAXDEPTH && ignoring.Length == MAXDEPTH
      && depth < MAXDEPTH
      && ifstate[0] == Outside && !ignoring[0]
    }

    ghost function Stack(): Stack
      requires Valid()
      reads this, ifstate, ignoring
    {
      StackOf(ifstate[..], ignoring[..], depth)
    }

    ghost function State(): Machine
      requires Valid()
      reads this, ifstate, ignoring
    {
      Machine(Stack(), output, status, iocccok)
    }

    constructor (iocccok: bool)
      ensures Valid() && State() == Start(iocccok) && this.iocccok == iocccok
      ensures fresh(ifstate) && fresh(ignoring)
    {
      this.iocccok := iocccok;
      ifstate := new Ifstate[MAXDEPTH](_ => Outside);
      ignoring := new bool[MAXDEPTH](_ => false);
      depth := 0;
      output := [];
      status := Running;
    }

    // State machine utility functions.

    method IgnoreOff()
      requires Valid() && depth > 0 && status.Running?
      modifies ignoring
      ensures Valid()
      ensures ignoring[..] == old(ignoring[..])[depth := old(ignoring[depth - 1])]
    {
      ignoring[depth] := ignoring[depth - 1];
    }

    method IgnoreOn()
      requires Valid() && depth > 0 && status.Running?
      modifies ignoring
      ensures Valid() && ignoring[..] == old(ignoring[..])[depth := true]
    {
      ignoring[depth] := true;
    }

    method SetState(s: Ifstate)
      requires Valid() && depth > 0 && status.Running?
      modifies ifstate
      ensures Valid() && ifstate[..] == old(ifstate[..])[depth := s]
    {
      ifstate[depth] := s;
    }

    method Nest()
      requires Valid() && status.Running?
      modifies this`depth, this`status
      ensures Valid()
      ensures if old(depth) == MAXDEPTH - 1 then status.Failed? && depth == old(depth)
              else status.Running? && depth == old(depth) + 1
    {
      if depth == MAXDEPTH - 1 {
        status := Failed;
        return;
      }
      depth := depth + 1;
    }

    method Unnest()
      requires Valid() && depth > 0 && status.Running?
      modifies this`depth
      ensures Valid() && depth == old(depth) - 1
    {
      depth := depth - 1;
    }

    method Write(lines: seq<Line>)
      modifies this`output
      ensures output == old(output) + lines
    {
      output := output + lines;
    }

    // The shapes that the transition functions are made of.

    method TurnTo(s: Ifstate, off: bool)
      requires Valid() && depth > 0 && status.Running?
      modifies ifstate, ignoring
      ensures Valid() && Moved(Running, Stack()) == MoveTo(old(Stack()), Turns(s, off))
    {
      ghost var a, b := ifstate[..], ignoring[..];
      if off {
        IgnoreOff();
      }
      SetState(s);
      ghost var g := if off then b[depth - 1] else b[depth];
      assert ifstate[..] == a[depth := s] && ignoring[..] == b[depth := g];
      StackOfTop(a, b, depth, s, g);
    }

    method OpenTo(s: Ifstate, ignore: bool, line: seq<Line>)
      requires Valid() && status.Running?
      modifies this`depth, this`status, this`output, ifstate, ignoring
      ensures Valid() && Moved(status, Stack()) == MoveTo(old(Stack()), Opens(s, ignore))
      ensures output == if status.Running? then old(output) + line else old(output)
    {
      ghost var a, b := ifstate[..], ignoring[..];
      StackOfDepth(a, b, depth);
      Nest();
      if status.Running? {
        Write(line);
        IgnoreOff();
        SetState(s);
        if ignore {
          IgnoreOn();
        }
        ghost var g := ignore || b[depth - 1];
        assert ifstate[..] == a[depth := s] && ignoring[..] == b[depth := g];
        StackOfTop(a, b, depth, s, g);
      }
    }

    method CloseGroup()
      requires Valid() && depth > 0 && status.Running?
      modifies this`depth
      ensures Valid() && Moved(Running, Stack()) == MoveTo(old(Stack()), Closes)
    {
      Unnest();
    }

    /** A transition function, given by what it does to the line and to the stack. */
    method Perform(e: Effect, line: Line)
      requires Valid() && status.Running?
      requires e.target.Turns? || e.target.Closes? ==> depth > 0
      modifies this`depth, this`status, this`output, ifstate, ignoring
      ensures Valid() && Moved(status, Stack()) == MoveTo(old(Stack()), e.target)
      ensures output == old(output) + (if status.Running? then EditLine(e.edit, line) else [])
    {
      match e.target {
        case Stays => Write(EditLine(e.edit, line));
        case Opens(s, ignore) => OpenTo(s, ignore, EditLine(e.edit, line));
        case Turns(s, off) => Write(EditLine(e.edit, line)); TurnTo(s, off);
        case Closes => Write(EditLine(e.edit, line)); CloseGroup();
        case Stops => status := Failed;
        case Finishes => status := Finished;
        case Aborts => status := Aborted;
      }
    }

    method ProcessLine(item: Item)
      requires Valid() && status.Running? && !item.lt.Error?
      modifies this`depth, this`status, this`output, ifstate, ignoring
      ensures Valid() && State() == Step(old(State()), item)
    {
      assert Top(Stack()) == ifstate[depth];
      TableDiscipline(ifstate[depth], item.lt, iocccok);
      Perform(EffectOf(Trans(ifstate[depth], item.lt), iocccok), item.line);
      assert old(output) + [] == old(output);
    }

    method ProcessNext(items: seq<Item>, n: nat)
      requires Valid() && status.Running? && n < |items|
      requires forall i :: 0 <= i < |items| ==> !items[i].lt.Error?
      requires State() == Run(iocccok, items[..n])
      modifies this`depth, this`status, this`output, ifstate, ignoring
      ensures Valid() && State() == Run(iocccok, items[..n + 1])
    {
      ProcessLine(items[n]);
      RunOneMore(iocccok, items, n);
    }

    method ProcessEnd(items: seq<Item>)
      requires Valid() && status.Running?
      requires forall i :: 0 <= i < |items| ==> !items[i].lt.Error?
      requires State() == Run(iocccok, items)
      modifies this`depth, this`status, this`output, ifstate, ignoring
      ensures Valid() && State() == RunToEnd(iocccok, items)
    {
      ProcessLine(EOF_ITEM);
    }

    /** process(): run over the lines and the end of the file until something ends the program. */
    method Process(items: seq<Item>)
      requires Valid() && State() == Start(iocccok)
      requires forall i :: 0 <= i < |items| ==> !items[i].lt.Error?
      modifies this`depth, this`status, this`output, ifstate, ignoring
      ensures Valid() && State() == RunToEnd(iocccok, items)
    {
      var n := 0;
      while n < |items| && status.Running?
        invariant 0 <= n <= |items| && Valid()
        invariant State() == Run(iocccok, items[..n])
      {
        ProcessNext(items, n);
        n := n + 1;
      }
      if status.Running? {
        assert items[..n] == items;
        ProcessEnd(items);
      } else {
        StoppedStays(iocccok, items, n);
      }
    }
  }

  lemma {:induction false} RunOneMore(iocccok: bool, items: seq<Item>, n: nat)
    requires n < |items| && forall i :: 0 <= i < |items| ==> !items[i].lt.Error?
    ensures Run(iocccok, items[..n + 1]) == Step(Run(iocccok, items[..n]), items[n])
  {
    assert items[..n + 1][..n] == items[..n];
  }

  /** Once the program has stopped, reading further would change nothing. */
  lemma {:induction false} StoppedStays(iocccok: bool, items: seq<Item>, n: nat)
    requires n <= |items| && forall i :: 0 <= i < |items| ==> !items[i].lt.Error?
    requires !Run(iocccok, items[..n]).status.Running?
    ensures RunToEnd(iocccok, items) == Run(iocccok, items[..n])
    decreases |items| - n
  {
    if n == |items| {
      assert items[..n] == items;
    } else {
      RunOneMore(iocccok, items, n);
      StoppedStays(iocccok, items, n + 1);
    }
  }
}
