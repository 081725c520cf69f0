/**
  The composite branchings of the solver's search: a BranchGroup picks one
  child to delegate to (in encounter order or by best score), a RandomBranch
  walks its children in a partially shuffled order, and the factory builds
  one of the two for a requested strategy and resolves the value policy.

  A child branching is seen only through what a composite asks of it: whether
  it is finished, and its score under the composite's strategy. The opaque
  decision a leaf produces is replaced by the index of the child that was
  delegated to.
*/
module Branching {
  import opened Wrappers

  /** One child branching as its composite sees it. */
  datatype Child = Child(finished: bool, score: int)

  /** Variable-selection strategy: encounter order, random, or one of the scored heuristics. */
  datatype VarBranch = VarInOrder | VarRandom | VarScored(heuristic: nat)

  /** Outcome of `branch()`: the child delegated to, or no decision (NULL). */
  datatype Decision = Delegate(child: nat) | NoDecision

  predicate AllFinished(x: seq<Child>)
  {
    forall i :: 0 <= i < |x| ==> x[i].finished
  }

  predicate Increasing(t: seq<nat>)
  {
    forall i, j :: 0 <= i < j < |t| ==> t[i] < t[j]
  }

  // ---------------------------------------------------------------------
  // Specification of the selection rules
  // ---------------------------------------------------------------------

  /** The lowest index at or after `from` whose child is unfinished, or |x| when there is none. */
  function FirstUnfinished(x: seq<Child>, from: nat): (r: nat)
    requires from <= |x|
    ensures from <= r <= |x|
    ensures forall k :: from <= k < r ==> x[k].finished
    ensures r < |x| ==> !x[r].finished
    decreases |x| - from
  {
    if from == |x| then from
    else if !x[from].finished then from
    else FirstUnfinished(x, from + 1)
  }

  /** The two properties of FirstUnfinished single it out. */
  lemma FirstUnfinishedUnique(x: seq<Child>, from: nat, r: nat)
    requires from <= r <= |x|
    requires forall k :: from <= k < r ==> x[k].finished
    requires r < |x| ==> !x[r].finished
    ensures r == FirstUnfinished(x, from)
  {
  }

  /** The best score among unfinished children; None when every child is finished. */
  function MaxScore(x: seq<Child>): (b: Option<int>)
    ensures b.None? <==> AllFinished(x)
    ensures b.Some? ==> exists k :: 0 <= k < |x| && !x[k].finished && x[k].score == b.value
    ensures b.Some? ==> forall k :: 0 <= k < |x| && !x[k].finished ==> x[k].score <= b.value
  {
    if |x| == 0 then None
    else
      var p := x[..|x| - 1];
      var b := MaxScore(p);
      var c := x[|x| - 1];
      assert forall k :: 0 <= k < |p| ==> p[k] == x[k];
      if c.finished then b
      else if b.None? || b.value <= c.score then Some(c.score)
      else b
  }

  /** The indices, in increasing order, of unfinished children whose score is `s`. */
  function Tied(x: seq<Child>, s: int): (t: seq<nat>)
    ensures forall k: int :: k in t <==> 0 <= k < |x| && !x[k].finished && x[k].score == s
    ensures Increasing(t)
  {
    if |x| == 0 then []
    else
      var p := x[..|x| - 1];
      var t := Tied(p, s);
      var c := x[|x| - 1];
      assert forall k :: 0 <= k < |p| ==> p[k] == x[k];
      assert forall i :: 0 <= i < |t| ==> t[i] in t;
      if !c.finished && c.score == s then t + [|x| - 1] else t
  }

  lemma {:induction false} TiedEmpty(x: seq<Child>, s: int)
    requires forall k :: 0 <= k < |x| && !x[k].finished ==> x[k].score != s
    ensures Tied(x, s) == []
  {
    if |x| > 0 {
      var p := x[..|x| - 1];
      assert forall k :: 0 <= k < |p| ==> p[k] == x[k];
      TiedEmpty(p, s);
    }
  }

  /** The tie set `moves` of a scored scan: the unfinished children at the best score. */
  function BestMoves(x: seq<Child>): (m: seq<nat>)
    ensures m == [] <==> AllFinished(x)
    ensures Increasing(m)
    ensures forall k: int :: k in m <==>
      0 <= k < |x| && !x[k].finished && forall j :: 0 <= j < |x| && !x[j].finished ==> x[j].score <= x[k].score
  {
    match MaxScore(x)
    case None => []
    case Some(b) =>
      var m := Tied(x, b);
      var w :| 0 <= w < |x| && !x[w].finished && x[w].score == b;
      assert w in m;
      m
  }

  /**
    The child a group chooses when its fast path is not taken: the first
    unfinished child in encounter order, or else among the unfinished children
    at the best score the lowest-indexed one (or the `rnd`-th one modulo the
    tie count when random tie-breaking is on).
  */
  function Select(x: seq<Child>, vb: VarBranch, branchRandom: bool, rnd: nat): (d: Decision)
    ensures d.NoDecision? <==> AllFinished(x)
    ensures d.Delegate? ==> d.child < |x| && !x[d.child].finished
    ensures d.Delegate? && vb == VarInOrder ==> forall k :: 0 <= k < d.child ==> x[k].finished
    ensures d.Delegate? && vb != VarInOrder ==>
      forall k :: 0 <= k < |x| && !x[k].finished ==> x[k].score <= x[d.child].score
    ensures d.Delegate? && vb != VarInOrder && !branchRandom ==>
      forall k :: 0 <= k < d.child && !x[k].finished ==> x[k].score < x[d.child].score
  {
    if vb == VarInOrder then
      var i := FirstUnfinished(x, 0);
      if i == |x| then NoDecision else Delegate(i)
    else
      var m := BestMoves(x);
      if m == [] then NoDecision
      else
        var i := if branchRandom then m[rnd % |m|] else m[0];
        assert i in m;
        assert !branchRandom ==> forall k :: 0 <= k < i && !x[k].finished && x[k].score == x[i].score ==> k in m;
        Delegate(i)
  }

  // ---------------------------------------------------------------------
  // BranchGroup
  // ---------------------------------------------------------------------

  /** A composite that delegates to one child chosen by its strategy. */
  class BranchGroup {
    var x: seq<Child>
    const varBranch: VarBranch
    const terminal: bool
    /** Cached "all children finished"; set once, never cleared. */
    var fin: bool
    /** Cached active child, -1 when none; written only by a non-terminal group. */
    var cur: int
    /** Scratch tie set of the last scored scan. */
    var moves: seq<nat>

    ghost predicate Valid()
      reads this
    {
      -1 <= cur < |x| && (terminal ==> cur == -1)
    }

    /**
      The fast path: a cached child that is still unfinished. Only a
      non-terminal group takes it, and never once every child is finished.
    */
    predicate FastPath()
      reads this
      requires Valid()
      ensures FastPath() ==> !terminal && !AllFinished(x)
    {
      0 <= cur && !x[cur].finished
    }

    constructor (x0: seq<Child>, vb: VarBranch, t: bool)
      ensures Valid()
      ensures x == x0 && varBranch == vb && terminal == t
      ensures !fin && cur == -1 && moves == []
    {
      x := x0;
      varBranch := vb;
      terminal := t;
      fin := false;
      cur := -1;
      moves := [];
    }

    method Finished() returns (b: bool)
      requires Valid()
      modifies this`fin
      ensures Valid()
      ensures old(fin) ==> b && fin
      ensures !old(fin) ==> b == AllFinished(x) && fin == b
    {
      if fin {
        return true;
      }
      var i := 0;
      while i < |x|
        invariant 0 <= i <= |x|
        invariant forall k :: 0 <= k < i ==> x[k].finished
      {
        if !x[i].finished {
          return false;
        }
        i := i + 1;
      }
      fin := true;
      return true;
    }

    method Branch(branchRandom: bool, rnd: nat) returns (d: Decision)
      requires Valid()
      modifies this`cur, this`moves
      ensures Valid()
      ensures old(FastPath()) ==> d == Delegate(old(cur)) && cur == old(cur) && moves == old(moves)
      ensures !old(FastPath()) ==> d == Select(x, varBranch, branchRandom, rnd)
      ensures !old(FastPath()) ==> cur == (if terminal || d.NoDecision? then old(cur) else d.child)
      ensures !old(FastPath()) ==> moves == (if varBranch == VarInOrder then old(moves) else BestMoves(x))
    {
      if 0 <= cur && !x[cur].finished {
        return Delegate(cur);
      }
      d := FindNewChild(branchRandom, rnd);
    }

    /** The slow path of `branch()`: choose a new child by the group's strategy. */
    method FindNewChild(branchRandom: bool, rnd: nat) returns (d: Decision)
      requires Valid()
      modifies this`cur, this`moves
      ensures Valid()
      ensures d == Select(x, varBranch, branchRandom, rnd)
      ensures cur == (if terminal || d.NoDecision? then old(cur) else d.child)
      ensures moves == (if varBranch == VarInOrder then old(moves) else BestMoves(x))
    {
      if varBranch == VarInOrder {
        var i := 0;
        while i < |x| && x[i].finished
          invariant 0 <= i <= |x|
          invariant forall k :: 0 <= k < i ==> x[k].finished
        {
          i := i + 1;
        }
        FirstUnfinishedUnique(x, 0, i);
        assert Select(x, varBranch, branchRandom, rnd) == if i == |x| then NoDecision else Delegate(i);
        if i == |x| {
          return NoDecision;
        }
        if !terminal {
          cur := i;
        }
        return Delegate(i);
      }
      ScanScores();
      if |moves| == 0 {
        assert Select(x, varBranch, branchRandom, rnd) == NoDecision;
        return NoDecision;
      }
      var bestI := moves[0];
      if branchRandom {
        bestI := moves[rnd % |moves|];
      }
      assert bestI in moves;
      assert Select(x, varBranch, branchRandom, rnd) == Delegate(bestI);
      if !terminal {
        cur := bestI;
      }
      return Delegate(bestI);
    }

    /**
      The scored scan of `branch()`: tracks the best score so far and refills
      `moves` with the unfinished children tied at it, in increasing order.
    */
    method ScanScores()
      modifies this`moves
      ensures moves == BestMoves(x)
    {
      var best: Option<int> := None;
      moves := [];
      for i := 0 to |x|
        invariant best == MaxScore(x[..i])
        invariant moves == BestMoves(x[..i])
      {
        ScanStep(x, i);
        if !x[i].finished {
          var s := x[i].score;
          if best.None? || s >= best.value {
            if best.None? || s > best.value {
              best := Some(s);
              moves := [];
            }
            moves := moves + [i];
          }
        }
      }
      assert x[..|x|] == x;
    }
  }

  lemma MaxScoreStep(x: seq<Child>, i: nat)
    requires i < |x|
    ensures MaxScore(x[..i + 1]) ==
      var b, c := MaxScore(x[..i]), x[i];
      if c.finished then b
      else if b.None? || b.value <= c.score then Some(c.score)
      else b
  {
  }

  lemma TiedStep(x: seq<Child>, i: nat, s: int)
    requires i < |x|
    ensures Tied(x[..i + 1], s) == Tied(x[..i], s) + (if !x[i].finished && x[i].score == s then [i] else [])
  {
    assert x[..i + 1][..i] == x[..i];
  }

  /**
    Two calls of `branch()` with nothing changed in between, each with its own
    draw of rand(), delegate to the same child unless the second call may
    re-draw a random tie-break: a non-terminal group answers the second call
    from its cache, and without random tie-breaking the selection depends on
    the children alone. Either both calls return no decision or neither does.
  */
  method RepeatedBranchSameChild(g: BranchGroup, branchRandom: bool, rnd1: nat, rnd2: nat)
    returns (d1: Decision, d2: Decision)
    requires g.Valid()
    modifies g
    ensures d1.NoDecision? <==> AllFinished(g.x)
    ensures d2.NoDecision? <==> d1.NoDecision?
    ensures d1.Delegate? && (!g.terminal || !branchRandom || g.varBranch == VarInOrder) ==> d2 == d1
  {
    d1 := g.Branch(branchRandom, rnd1);
    d2 := g.Branch(branchRandom, rnd2);
    if !branchRandom || g.varBranch == VarInOrder {
      SelectIgnoresRnd(g.x, g.varBranch, branchRandom, rnd1, rnd2);
    }
  }

  /** Without random tie-breaking the choice of a new child does not depend on the draw. */
  lemma SelectIgnoresRnd(x: seq<Child>, vb: VarBranch, branchRandom: bool, rnd1: nat, rnd2: nat)
    requires !branchRandom || vb == VarInOrder
    ensures Select(x, vb, branchRandom, rnd1) == Select(x, vb, branchRandom, rnd2)
  {
  }

  /** One step of the scored scan keeps `best` and `moves` equal to their specifications. */
  lemma ScanStep(x: seq<Child>, i: nat)
    requires i < |x|
    ensures x[i].finished || (MaxScore(x[..i]).Some? && x[i].score < MaxScore(x[..i]).value) ==>
      MaxScore(x[..i + 1]) == MaxScore(x[..i]) && BestMoves(x[..i + 1]) == BestMoves(x[..i])
    ensures !x[i].finished && (MaxScore(x[..i]).None? || x[i].score > MaxScore(x[..i]).value) ==>
      MaxScore(x[..i + 1]) == Some(x[i].score) && BestMoves(x[..i + 1]) == [i]
    ensures !x[i].finished && MaxScore(x[..i]).Some? && x[i].score == MaxScore(x[..i]).value ==>
      MaxScore(x[..i + 1]) == MaxScore(x[..i]) && BestMoves(x[..i + 1]) == BestMoves(x[..i]) + [i]
  {
    var best, c := MaxScore(x[..i]), x[i];
    MaxScoreStep(x, i);
    var b' := MaxScore(x[..i + 1]);
    if b'.Some? {
      TiedStep(x, i, b'.value);
      if !c.finished && (best.None? || c.score > best.value) {
        TiedEmpty(x[..i], c.score);
      }
    }
  }

  // ---------------------------------------------------------------------
  // RandomBranch
  // ---------------------------------------------------------------------

  function Swap(s: seq<Child>, i: nat, j: nat): (r: seq<Child>)
    requires i < |s| && j < |s|
    ensures |r| == |s| && r[i] == s[j] && r[j] == s[i]
    ensures forall k :: 0 <= k < |s| && k != i && k != j ==> r[k] == s[k]
  {
    s[i := s[j]][j := s[i]]
  }

  /** A swap inside the suffix from `from` leaves the prefix alone and permutes the suffix. */
  lemma SwapInSuffix(s: seq<Child>, from: nat, i: nat, j: nat)
    requires from <= i < |s| && from <= j < |s|
    ensures Swap(s, i, j)[..from] == s[..from]
    ensures multiset(Swap(s, i, j)[from..]) == multiset(s[from..])
  {
  }

  /** Children with the same multiset are all finished together. */
  lemma PermutedFinished(a: seq<Child>, b: seq<Child>)
    requires multiset(a) == multiset(b)
    ensures AllFinished(a) <==> AllFinished(b)
  {
    forall k | 0 <= k < |b|
      ensures AllFinished(a) ==> b[k].finished
    {
      assert b[k] in multiset(a);
    }
    forall k | 0 <= k < |a|
      ensures AllFinished(b) ==> a[k].finished
    {
      assert a[k] in multiset(b);
    }
  }

  /** The position a draw `r` selects among `idx .. n - 1`. */
  function Pick(idx: nat, n: nat, r: nat): (j: nat)
    requires idx < n
    ensures idx <= j < n
  {
    idx + r % (n - idx)
  }

  /**
    The walk of one `branch()` call from position `idx`, in a suffix that
    starts at `from`: swap the child at `idx` with the one `rand(idx - from)`
    modulo the remaining length further on, stop at `idx` if the child now
    there is unfinished, and otherwise go on at `idx + 1`. The result is the
    children after the swaps and the position stopped at, `|x|` when none.
  */
  function Shuffle(x: seq<Child>, from: nat, idx: nat, rand: nat -> nat): (r: (seq<Child>, nat))
    requires from <= idx <= |x|
    ensures |r.0| == |x| && idx <= r.1 <= |x|
    decreases |x| - idx
  {
    if idx == |x| then (x, idx)
    else
      var y := Swap(x, idx, Pick(idx, |x|, rand(idx - from)));
      if !y[idx].finished then (y, idx) else Shuffle(y, from, idx + 1, rand)
  }

  /** The walk leaves the prefix before `idx` alone and permutes the rest. */
  lemma {:induction false} ShufflePermutes(x: seq<Child>, from: nat, idx: nat, rand: nat -> nat)
    requires from <= idx <= |x|
    ensures Shuffle(x, from, idx, rand).0[..idx] == x[..idx]
    ensures multiset(Shuffle(x, from, idx, rand).0[idx..]) == multiset(x[idx..])
    decreases |x| - idx
  {
    if idx < |x| {
      var j := Pick(idx, |x|, rand(idx - from));
      var y := Swap(x, idx, j);
      SwapInSuffix(x, idx, idx, j);
      if y[idx].finished {
        ShufflePermutes(y, from, idx + 1, rand);
        PermutedOneLess(Shuffle(y, from, idx + 1, rand).0, y, idx);
      }
    }
  }

  /** A suffix is all finished exactly when its first child and the rest are. */
  lemma AllFinishedFrom(y: seq<Child>, i: nat)
    requires i < |y|
    ensures AllFinished(y[i..]) <==> y[i].finished && AllFinished(y[i + 1..])
  {
    assert y[i..] == [y[i]] + y[i + 1..];
  }

  /** Sequences that agree up to `i` inclusive and are permutations of each other after it. */
  lemma PermutedOneLess(r: seq<Child>, y: seq<Child>, i: nat)
    requires i < |r| == |y|
    requires r[..i + 1] == y[..i + 1]
    requires multiset(r[i + 1..]) == multiset(y[i + 1..])
    ensures r[..i] == y[..i] && r[i] == y[i]
    ensures multiset(r[i..]) == multiset(y[i..])
  {
    assert r[..i] == r[..i + 1][..i] && y[..i] == y[..i + 1][..i];
    assert r[i] == r[..i + 1][i] && y[i] == y[..i + 1][i];
    assert r[i..] == [r[i]] + r[i + 1..] && y[i..] == [y[i]] + y[i + 1..];
  }

  /** The walk stops at the first unfinished child of the permuted suffix, if any. */
  lemma {:induction false} ShuffleStops(x: seq<Child>, from: nat, idx: nat, rand: nat -> nat)
    requires from <= idx <= |x|
    ensures forall k :: idx <= k < Shuffle(x, from, idx, rand).1 ==> Shuffle(x, from, idx, rand).0[k].finished
    ensures Shuffle(x, from, idx, rand).1 < |x| ==> !Shuffle(x, from, idx, rand).0[Shuffle(x, from, idx, rand).1].finished
    decreases |x| - idx
  {
    if idx < |x| {
      var y := Swap(x, idx, Pick(idx, |x|, rand(idx - from)));
      if y[idx].finished {
        ShuffleStops(y, from, idx + 1, rand);
        ShufflePermutes(y, from, idx + 1, rand);
        PermutedOneLess(Shuffle(y, from, idx + 1, rand).0, y, idx);
      }
    }
  }

  /** The walk runs to the end exactly when every child of the suffix was finished. */
  lemma {:induction false} ShuffleExhausts(x: seq<Child>, from: nat, idx: nat, rand: nat -> nat)
    requires from <= idx <= |x|
    ensures Shuffle(x, from, idx, rand).1 == |x| <==> AllFinished(x[idx..])
    decreases |x| - idx
  {
    if idx < |x| {
      var j := Pick(idx, |x|, rand(idx - from));
      var y := Swap(x, idx, j);
      SwapInSuffix(x, idx, idx, j);
      PermutedFinished(y[idx..], x[idx..]);
      AllFinishedFrom(y, idx);
      if y[idx].finished {
        ShuffleExhausts(y, from, idx + 1, rand);
      }
    }
  }

  /**
    A composite that visits its children in random order, one partial
    Fisher-Yates step per position, never going back over a position.
  */
  class RandomBranch {
    var x: seq<Child>
    /** The forward-only cursor (trailed by the engine in the solver). */
    var cur: int

    ghost predicate Valid()
      reads this
    {
      0 <= cur <= |x|
    }

    constructor (x0: seq<Child>)
      ensures Valid() && x == x0 && cur == 0
    {
      x := x0;
      cur := 0;
    }

    method Add(c: Child)
      requires Valid()
      modifies this`x
      ensures Valid() && x == old(x) + [c] && cur == old(cur)
    {
      x := x + [c];
    }

    method Finished() returns (b: bool)
      requires Valid()
      modifies this`cur
      ensures Valid()
      ensures old(cur) <= cur
      ensures cur == FirstUnfinished(x, old(cur))
      ensures b <==> cur == |x|
    {
      var sz := |x|;
      if cur < sz {
        if !x[cur].finished {
          FirstUnfinishedUnique(x, cur, cur);
          return false;
        }
        var idx := cur + 1;
        while idx < sz
          invariant old(cur) < idx <= sz
          invariant forall k :: old(cur) <= k < idx ==> x[k].finished
        {
          if !x[idx].finished {
            FirstUnfinishedUnique(x, old(cur), idx);
            cur := idx;
            return false;
          }
          idx := idx + 1;
        }
        FirstUnfinishedUnique(x, old(cur), sz);
        cur := sz;
      }
      return true;
    }

    /**
      `rand(k)` is the value of the k-th call of rand() made by this call;
      only its value modulo the length of the remaining suffix matters.
    */
    method Branch(rand: nat -> nat) returns (d: Decision)
      requires Valid()
      modifies this`x, this`cur
      ensures Valid()
      ensures x == Shuffle(old(x), old(cur), old(cur), rand).0
      ensures cur == Shuffle(old(x), old(cur), old(cur), rand).1
      ensures d == if cur < |x| then Delegate(cur) else NoDecision
    {
      var sz, idx := |x|, cur;
      while idx < sz
        modifies this`x
        invariant cur <= idx <= sz == |x|
        invariant Shuffle(x, cur, idx, rand) == Shuffle(old(x), cur, cur, rand)
      {
        x := Swap(x, idx, Pick(idx, sz, rand(idx - cur)));
        if !x[idx].finished {
          break;
        }
        idx := idx + 1;
      }
      cur := idx;
      d := if idx < sz then Delegate(idx) else NoDecision;
    }
  }

  // ---------------------------------------------------------------------
  // Factory
  // ---------------------------------------------------------------------

  /** Value-selection policy requested for a group of variables. */
  datatype ValBranch = ValDefault | ValMin | ValMax | ValSplitMin | ValSplitMax | ValOther(code: nat)

  /** Preferred-value hint a variable accepts. */
  datatype PreferredVal = PvMin | PvMax | PvSplitMin | PvSplitMax

  datatype FactoryError = UnsupportedValueBranching

  /** Which composite the factory builds. */
  datatype Composite = RandomComposite | GroupComposite(varBranch: VarBranch, terminal: bool)

  function CompositeFor(vb: VarBranch): (c: Composite)
    ensures c.RandomComposite? <==> vb == VarRandom
    ensures c.GroupComposite? ==> c.varBranch == vb && c.terminal
  {
    match vb
    case VarRandom => RandomComposite
    case _ => GroupComposite(vb, true)
  }

  /** The preference set on every variable: none for the default policy, an error for an unsupported one. */
  function PreferenceOf(v: ValBranch): (r: Result<Option<PreferredVal>, FactoryError>)
    ensures r.Err? <==> v.ValOther?
    ensures r == Ok(None) <==> v == ValDefault
  {
    match v
    case ValDefault => Ok(None)
    case ValMin => Ok(Some(PvMin))
    case ValMax => Ok(Some(PvMax))
    case ValSplitMin => Ok(Some(PvSplitMin))
    case ValSplitMax => Ok(Some(PvSplitMax))
    case ValOther(_) => Err(UnsupportedValueBranching)
  }

  /** The value policy a preference comes from. */
  function ValBranchOf(p: PreferredVal): (v: ValBranch)
    ensures v != ValDefault && !v.ValOther?
  {
    match p
    case PvMin => ValMin
    case PvMax => ValMax
    case PvSplitMin => ValSplitMin
    case PvSplitMax => ValSplitMax
  }

  /** Each supported policy maps to exactly one preference and back. */
  lemma PreferenceRoundTrip(v: ValBranch, p: PreferredVal)
    ensures PreferenceOf(ValBranchOf(p)) == Ok(Some(p))
    ensures PreferenceOf(v) == Ok(Some(p)) ==> v == ValBranchOf(p)
  {
  }

  /** The composite the factory allocated. */
  datatype Built = RandomBuilt(rb: RandomBranch) | GroupBuilt(bg: BranchGroup)

  /**
    The factory: allocates the composite for `vb` over `x` and resolves the
    value policy `v` into the preference every element of `x` is given.
  */
  method MakeBranching(x: seq<Child>, vb: VarBranch, v: ValBranch)
    returns (b: Built, pref: Result<Option<PreferredVal>, FactoryError>)
    ensures b.RandomBuilt? <==> CompositeFor(vb) == RandomComposite
    ensures b.RandomBuilt? ==> fresh(b.rb) && b.rb.Valid() && b.rb.x == x && b.rb.cur == 0
    ensures b.GroupBuilt? ==>
      fresh(b.bg) && b.bg.Valid() && b.bg.x == x && b.bg.varBranch == vb && b.bg.terminal
      && !b.bg.fin && b.bg.cur == -1
    ensures pref == PreferenceOf(v)
  {
    match vb {
      case VarRandom =>
        var rb := new RandomBranch(x);
        b := RandomBuilt(rb);
      case _ =>
        var bg := new BranchGroup(x, vb, true);
        b := GroupBuilt(bg);
    }
    pref := PreferenceOf(v);
  }
}
