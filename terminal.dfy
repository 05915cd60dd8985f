/**
 * The ingestion layer of vt_posix.go: terminal.Write, terminal.WriteWithChanges
 * and uniqueSorted. The interpreter behind put is abstract: its state has an
 * arbitrary type S, put changes it by an arbitrary function step, and the
 * cursor row is an arbitrary function row of it, all fixed when the terminal
 * is made. Every result below therefore holds for any interpreter.
 */
module Terminal {
  import opened Utf8
  import opened Reader
  import opened Ingestion

  /** The interpreter state after the runes rs have been put, one by one, starting from s. */
  function Run<S>(step: (S, int) -> S, s: S, rs: seq<int>): S
    decreases |rs|
  {
    if rs == [] then s else step(Run(step, s, rs[..|rs| - 1]), rs[|rs| - 1])
  }

  /**
   * The rows WriteWithChanges marks while putting rs from state s: for each
   * rune the row before put, and the row after it when that differs.
   */
  function Dirty<S>(step: (S, int) -> S, row: S -> int, s: S, rs: seq<int>): set<int>
    decreases |rs|
  {
    if rs == [] then {}
    else
      var pre := rs[..|rs| - 1];
      var before := row(Run(step, s, pre));
      var after := row(Run(step, s, rs));
      Dirty(step, row, s, pre) + {before} + (if after != before then {after} else {})
  }

  /** The map WriteWithChanges builds while putting rs from state s: every row Dirty names, marked true. */
  function Marked<S>(step: (S, int) -> S, row: S -> int, s: S, rs: seq<int>): map<int, bool>
    decreases |rs|
  {
    if rs == [] then map[]
    else
      var pre := rs[..|rs| - 1];
      var before := row(Run(step, s, pre));
      var after := row(Run(step, s, rs));
      var m := Marked(step, row, s, pre)[before := true];
      if after != before then m[after := true] else m
  }

  /** The rows marked are exactly the dirty rows. */
  lemma {:induction false} MarkedKeys<S>(step: (S, int) -> S, row: S -> int, s: S, rs: seq<int>)
    ensures Marked(step, row, s, rs).Keys == Dirty(step, row, s, rs)
    decreases |rs|
  {
    if rs != [] {
      MarkedKeys(step, row, s, rs[..|rs| - 1]);
    }
  }

  lemma MarkedSnoc<S>(step: (S, int) -> S, row: S -> int, s: S, rs: seq<int>, c: int)
    ensures var before := row(Run(step, s, rs)); var after := row(step(Run(step, s, rs), c));
      var m := Marked(step, row, s, rs)[before := true];
      Marked(step, row, s, rs + [c]) == if after != before then m[after := true] else m
  {
    assert (rs + [c])[..|rs|] == rs;
  }

  lemma RunSnoc<S>(step: (S, int) -> S, s: S, rs: seq<int>, c: int)
    ensures Run(step, s, rs + [c]) == step(Run(step, s, rs), c)
  {
    assert (rs + [c])[..|rs|] == rs;
  }

  /** The rows the cursor occupied at some point of the call, the starting row included. */
  ghost function Visited<S>(step: (S, int) -> S, row: S -> int, s: S, rs: seq<int>): set<int> {
    set k | 0 <= k <= |rs| :: row(Run(step, s, rs[..k]))
  }

  /**
   * The dirty rows are exactly the rows the cursor was on before, between
   * and after the puts; when nothing is put, no row is dirty.
   */
  lemma {:induction false} DirtyIsVisited<S>(step: (S, int) -> S, row: S -> int, s: S, rs: seq<int>)
    ensures Dirty(step, row, s, rs) == if rs == [] then {} else Visited(step, row, s, rs)
    decreases |rs|
  {
    if rs != [] {
      var pre := rs[..|rs| - 1];
      DirtyIsVisited(step, row, s, pre);
      VisitedSnoc(step, row, s, rs);
      VisitedLast(step, row, s, pre);
      if pre == [] {
        VisitedNone(step, row, s);
      }
    }
  }

  lemma VisitedNone<S>(step: (S, int) -> S, row: S -> int, s: S)
    ensures Visited(step, row, s, []) == {row(s)}
  {
    assert row(Run(step, s, [][..0])) in Visited(step, row, s, []);
  }

  lemma VisitedLast<S>(step: (S, int) -> S, row: S -> int, s: S, rs: seq<int>)
    ensures row(Run(step, s, rs)) in Visited(step, row, s, rs)
  {
    assert rs[..|rs|] == rs;
  }

  lemma VisitedSnoc<S>(step: (S, int) -> S, row: S -> int, s: S, rs: seq<int>)
    requires rs != []
    ensures Visited(step, row, s, rs)
         == Visited(step, row, s, rs[..|rs| - 1]) + {row(Run(step, s, rs))}
  {
    var n := |rs|;
    var pre := rs[..n - 1];
    forall k | 0 <= k <= n - 1
      ensures pre[..k] == rs[..k]
    {
    }
    VisitedLast(step, row, s, rs);
    forall x | x in Visited(step, row, s, rs)
      ensures x in Visited(step, row, s, pre) || x == row(Run(step, s, rs))
    {
      var k :| 0 <= k <= n && x == row(Run(step, s, rs[..k]));
      if k == n {
        assert rs[..k] == rs;
      } else {
        assert row(Run(step, s, pre[..k])) in Visited(step, row, s, pre);
      }
    }
    forall x | x in Visited(step, row, s, pre)
      ensures x in Visited(step, row, s, rs)
    {
      var k :| 0 <= k <= n - 1 && x == row(Run(step, s, pre[..k]));
      assert row(Run(step, s, rs[..k])) in Visited(step, row, s, rs);
    }
  }

  predicate Sorted(s: seq<int>) {
    forall i, j :: 0 <= i < j < |s| ==> s[i] <= s[j]
  }

  predicate Increasing(s: seq<int>) {
    forall i, j :: 0 <= i < j < |s| ==> s[i] < s[j]
  }

  predicate Distinct(s: seq<int>) {
    forall i, j :: 0 <= i < j < |s| ==> s[i] != s[j]
  }

  /** A sequence has no repeated element exactly when no element occurs more than once in its multiset. */
  lemma {:induction false} DistinctCounts(s: seq<int>)
    ensures Distinct(s) <==> forall x :: multiset(s)[x] <= 1
  {
    if s != [] {
      var t := s[1..];
      DistinctCounts(t);
      assert s == [s[0]] + t;
      assert multiset(s) == multiset{s[0]} + multiset(t);
      if Distinct(s) {
        assert Distinct(t) by {
          forall i, j | 0 <= i < j < |t| ensures t[i] != t[j] {
            assert t[i] == s[i + 1] && t[j] == s[j + 1];
          }
        }
        assert s[0] !in t by {
          forall j | 0 <= j < |t| ensures t[j] != s[0] {
            assert t[j] == s[j + 1];
          }
        }
      }
      if forall x :: multiset(s)[x] <= 1 {
        assert forall x :: multiset(t)[x] <= multiset(s)[x];
        assert multiset(t)[s[0]] == 0;
        forall i, j | 0 <= i < j < |s| ensures s[i] != s[j] {
          if i == 0 {
            assert s[j] == t[j - 1];
            assert s[j] in multiset(t);
          } else {
            assert s[i] == t[i - 1] && s[j] == t[j - 1];
          }
        }
      }
    }
  }

  /** Exchanges two elements of a. */
  method Swap(a: array<int>, i: int, j: int)
    requires 0 <= i < j < a.Length
    modifies a
    ensures a[..] == old(a[..])[i := old(a[j])][j := old(a[i])]
    ensures multiset(a[..]) == multiset(old(a[..]))
  {
    a[i], a[j] := a[j], a[i];
  }

  /** slices.Sort: sorts the integers in place, ascending. */
  method Sort(a: array<int>)
    modifies a
    ensures Sorted(a[..])
    ensures multiset(a[..]) == multiset(old(a[..]))
  {
    var i := 0;
    while i < a.Length
      invariant 0 <= i <= a.Length
      invariant Sorted(a[..i])
      invariant multiset(a[..]) == multiset(old(a[..]))
    {
      var j := i;
      while j > 0 && a[j - 1] > a[j]
        invariant 0 <= j <= i
        invariant forall x, y :: 0 <= x < y <= i && x != j && y != j ==> a[x] <= a[y]
        invariant forall y :: j < y <= i ==> a[j] < a[y]
        invariant multiset(a[..]) == multiset(old(a[..]))
        decreases j
      {
        Swap(a, j - 1, j);
        j := j - 1;
      }
      i := i + 1;
    }
  }

  lemma NonEmptyHasElement(s: set<int>)
    requires s != {}
    ensures exists x :: x in s
  {
    if forall x :: x !in s {
      assert false;
    }
  }

  /** uniqueSorted: the keys of m in ascending order, each once. */
  method UniqueSorted(m: map<int, bool>) returns (lines: seq<int>)
    ensures Increasing(lines)
    ensures forall k :: k in lines <==> k in m
    ensures |lines| == |m|
  {
    var a := new int[|m|];
    var n := 0;
    var rest := m.Keys;
    ghost var got: seq<int> := [];
    assert |rest| == |m|;
    while rest != {}
      invariant 0 <= n <= a.Length && |got| == n
      invariant n + |rest| == a.Length
      invariant a[..n] == got
      invariant forall x :: x in m <==> x in rest || x in got
      invariant forall x :: x in rest ==> x !in got
      invariant Distinct(got)
      decreases rest
    {
      NonEmptyHasElement(rest);
      var k :| k in rest;
      a[n] := k;
      n := n + 1;
      rest := rest - {k};
      got := got + [k];
    }
    assert a[..n] == a[..];
    if n == 0 {
      return a[..];
    }
    ghost var unsorted := a[..];
    DistinctCounts(unsorted);
    Sort(a);
    lines := a[..];
    DistinctCounts(lines);
    forall k ensures k in lines <==> k in unsorted {
      assert k in lines <==> k in multiset(lines);
      assert k in unsorted <==> k in multiset(unsorted);
    }
  }

  /**
   * A terminal: the interpreter state (State in the source, abstract here),
   * with the runes handed to put and the warnings logged so far as ghost
   * history.
   */
  class Terminal<S> {
    var st: S
    const step: (S, int) -> S
    const row: S -> int
    ghost var log: seq<int>
    ghost var warned: nat

    constructor (s0: S, step: (S, int) -> S, row: S -> int)
      ensures st == s0 && this.step == step && this.row == row
      ensures log == [] && warned == 0
    {
      st := s0;
      this.step := step;
      this.row := row;
      log := [];
      warned := 0;
    }

    /** t.cur.Y, the cursor row. */
    function CurY(): int
      reads this`st
    {
      row(st)
    }

    /** put: hands one rune to the interpreter. */
    method Put(c: int)
      modifies this`st, this`log
      ensures st == step(old(st), c) && log == old(log) + [c]
    {
      st := step(st, c);
      log := log + [c];
    }

    /** Write: parses p and applies it to the terminal state. */
    method Write(p: seq<byte>) returns (n: int, err: Option<Error>)
      modifies this`st, this`log, this`warned
      ensures err == None
      ensures n == Ingest(p).written
      ensures log == old(log) + Ingest(p).runes
      ensures st == Run(step, old(st), Ingest(p).runes)
      ensures warned == old(warned) + Ingest(p).warnings
    {
      var written := 0;
      var r := new BytesReader(p);
      ghost var acc := Outcome(0, [], 0);
      ghost var total := Ingest(p);
      WriteFromStart(p);
      while true
        invariant r.s == p && r.i <= |p|
        invariant written == acc.written
        invariant WriteFrom(p, r.i, acc) == total
        invariant log == old(log) + acc.runes && st == Run(step, old(st), acc.runes)
        invariant warned == old(warned) + acc.warnings
        decreases |p| - r.i
      {
        ghost var at := r.i;
        var c, sz, e := r.ReadRune();
        if e.Some? {
          if e.value == EOF {
            break;
          }
          return written, e;
        }
        WriteFromStep(p, at, acc);
        written := written + sz;
        if c == RuneError && sz == 1 {
          if r.Len() == 0 {
            // withheld: the last byte may begin a rune
            return written - 1, None;
          }
        }
        acc := Apply(c, sz, old(st), old(log), old(warned), acc);
      }
      return written, None;
    }

    /**
     * Write as its comment evidently intends: an incomplete sequence at the
     * end of p is left unread and uncounted, in full, so that resubmitting
     * those bytes with what follows completes the rune.
     */
    method WriteBuffered(p: seq<byte>) returns (n: int, err: Option<Error>)
      modifies this`st, this`log, this`warned
      ensures err == None
      ensures n == Buffered(p).written
      ensures log == old(log) + Buffered(p).runes
      ensures st == Run(step, old(st), Buffered(p).runes)
      ensures warned == old(warned) + Buffered(p).warnings
    {
      var written := 0;
      var r := new BytesReader(p);
      ghost var acc := Outcome(0, [], 0);
      ghost var total := Buffered(p);
      BufferedFromStart(p);
      while FullRune(p[written..])
        invariant r.s == p && r.i == written <= |p|
        invariant written == acc.written
        invariant BufferedFrom(p, written, acc) == total
        invariant log == old(log) + acc.runes && st == Run(step, old(st), acc.runes)
        invariant warned == old(warned) + acc.warnings
        decreases |p| - written
      {
        BufferedFromStep(p, written, acc);
        var c, sz, e := r.ReadRune();
        written := written + sz;
        acc := Apply(c, sz, old(st), old(log), old(warned), acc);
      }
      return written, None;
    }

    /**
     * The write loops' handling of one decoded rune that is not withheld: an
     * invalid byte is warned about, any other rune is put; what the call has
     * put and warned about so far, acc, grows accordingly.
     */
    method Apply(c: int, sz: nat, ghost st0: S, ghost log0: seq<int>, ghost warned0: nat, ghost acc: Outcome)
      returns (ghost next: Outcome)
      requires log == log0 + acc.runes && st == Run(step, st0, acc.runes) && warned == warned0 + acc.warnings
      modifies this`st, this`log, this`warned
      ensures next == Absorb(acc, Decoded(c, sz))
      ensures log == log0 + next.runes && st == Run(step, st0, next.runes) && warned == warned0 + next.warnings
    {
      next := Absorb(acc, Decoded(c, sz));
      if c == RuneError && sz == 1 {
        warned := warned + 1;  // an invalid sequence: one warning
        return;
      }
      Put(c);
      RunSnoc(step, st0, acc.runes, c);
      assert log0 + (acc.runes + [c]) == (log0 + acc.runes) + [c];
    }

    /**
     * Apply, also marking in dirty the row the cursor was on before put and
     * the row it is on after, when that differs.
     */
    method ApplyMarking(c: int, sz: nat, ghost st0: S, ghost log0: seq<int>, ghost warned0: nat,
                        ghost acc: Outcome, dirty: map<int, bool>)
      returns (ghost next: Outcome, marked: map<int, bool>)
      requires log == log0 + acc.runes && st == Run(step, st0, acc.runes) && warned == warned0 + acc.warnings
      requires dirty == Marked(step, row, st0, acc.runes)
      modifies this`st, this`log, this`warned
      ensures next == Absorb(acc, Decoded(c, sz))
      ensures log == log0 + next.runes && st == Run(step, st0, next.runes) && warned == warned0 + next.warnings
      ensures marked == Marked(step, row, st0, next.runes)
    {
      next := Absorb(acc, Decoded(c, sz));
      marked := dirty;
      if c == RuneError && sz == 1 {
        warned := warned + 1;  // an invalid sequence: one warning
        return;
      }
      MarkedSnoc(step, row, st0, acc.runes, c);
      RunSnoc(step, st0, acc.runes, c);
      var beforeRow := CurY();
      Put(c);
      var afterRow := CurY();

      marked := marked[beforeRow := true];
      if afterRow != beforeRow {
        marked := marked[afterRow := true];
      }
      assert log0 + (acc.runes + [c]) == (log0 + acc.runes) + [c];
    }

    /** WriteWithChanges: Write, also returning the rows the cursor touched. */
    method WriteWithChanges(p: seq<byte>) returns (lines: seq<int>, err: Option<Error>)
      modifies this`st, this`log, this`warned
      ensures err == None
      ensures Increasing(lines)
      ensures forall k :: k in lines <==> k in Dirty(step, row, old(st), Ingest(p).runes)
      ensures log == old(log) + Ingest(p).runes
      ensures st == Run(step, old(st), Ingest(p).runes)
      ensures warned == old(warned) + Ingest(p).warnings
    {
      var dirtyLines: map<int, bool> := map[];
      var r := new BytesReader(p);
      var prevRow := CurY();
      ghost var acc := Outcome(0, [], 0);
      ghost var total := Ingest(p);
      WriteFromStart(p);
      while true
        invariant r.s == p && r.i <= |p|
        invariant WriteFrom(p, r.i, acc) == total
        invariant log == old(log) + acc.runes && st == Run(step, old(st), acc.runes)
        invariant warned == old(warned) + acc.warnings
        invariant dirtyLines == Marked(step, row, old(st), acc.runes)
        decreases |p| - r.i
      {
        ghost var at := r.i;
        var c, sz, e := r.ReadRune();
        if e.Some? {
          if e.value == EOF {
            break;
          }
          lines := UniqueSorted(dirtyLines);
          return lines, e;
        }
        WriteFromStep(p, at, acc);
        if c == RuneError && sz == 1 {
          if r.Len() == 0 {
            MarkedKeys(step, row, old(st), acc.runes);
            lines := UniqueSorted(dirtyLines);
            return lines, None;
          }
        }
        acc, dirtyLines := ApplyMarking(c, sz, old(st), old(log), old(warned), acc, dirtyLines);
        if c == RuneError && sz == 1 {
          continue;
        }
        if CurY() != prevRow {
          prevRow := CurY();
        }
      }
      MarkedKeys(step, row, old(st), acc.runes);
      lines := UniqueSorted(dirtyLines);
      return lines, None;
    }
  }
}
