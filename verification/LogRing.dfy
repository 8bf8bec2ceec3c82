/** The startup log ring (backend/xray/startup_diagnostics.go) against the unbounded history it abbreviates. */
module LogRings {

  // ---- positions modulo the size ------------------------------------------

  lemma Remainder(a: int, q: int, r: int, n: int)
    requires n > 0 && a == q * n + r && 0 <= r < n
    ensures a % n == r
  {
    var d := a / n - q;
    assert d * n == r - a % n;
    assert d >= 1 ==> d * n >= n;
    assert d <= -1 ==> d * n <= -n;
  }

  /** Positions less than a round apart differ. */
  lemma Apart(a: nat, b: nat, n: nat)
    requires n > 0 && a < b < a + n
    ensures a % n != b % n
  {
    var d := b / n - a / n;
    assert d * n == b - a - (b % n - a % n);
    assert d >= 1 ==> d * n >= n;
    assert d <= 0 ==> d * n <= 0;
  }

  /** A whole round leads back. */
  lemma Round(a: nat, n: nat)
    requires n > 0
    ensures (a + n) % n == a % n
  {
    Remainder(a + n, a / n + 1, a % n, n);
  }

  /** Moving on from a position reached modulo the size. */
  lemma Advance(a: nat, k: nat, n: nat)
    requires n > 0
    ensures (a % n + k) % n == (a + k) % n
  {
    Remainder(a % n + k, (a + k) / n - a / n, (a + k) % n, n);
  }

  // ---- the ring -----------------------------------------------------------

  /** The last `m` lines. */
  function Last(history: seq<string>, m: nat): (r: seq<string>)
    requires m <= |history|
    ensures |r| == m && forall i :: 0 <= i < m ==> r[i] == history[|history| - m + i]
  {
    history[|history| - m..]
  }

  /** Where the line added after `k` others is kept. */
  function Slot(k: nat, size: nat): (slot: nat)
    requires size > 0
    ensures slot < size
  {
    k % size
  }

  /** The state a ring of positive size must be in, on values. */
  ghost predicate Holds(lines: seq<string>, history: seq<string>, next: nat, full: bool) {
    && |lines| > 0 && next == Slot(|history|, |lines|) && (full <==> |lines| <= |history|)
    && (!full ==> next == |history|)
    && forall k: nat {:trigger Slot(k, |lines|)} ::
         k < |history| && |history| - |lines| <= k ==> lines[Slot(k, |lines|)] == history[k]
  }

  lemma AddKeeps(lines: seq<string>, history: seq<string>, next: nat, full: bool, line: string)
    requires Holds(lines, history, next, full)
    ensures Holds(lines[next := line], history + [line], (next + 1) % |lines|, full || (next + 1) % |lines| == 0)
  {
    var n, h := |lines|, |history|;
    Advance(h, 1, n);
    if !full {
      assert next + 1 < n ==> (next + 1) % n == next + 1;
      assert next + 1 == n ==> (next + 1) % n == 0;
    }
    forall k: nat | k < h + 1 && h + 1 - n <= k ensures lines[next := line][Slot(k, n)] == (history + [line])[k] {
      if k < h {
        Apart(k, h, n);
      }
    }
  }

  /** Where the line `k` places after the oldest retained one is kept. */
  lemma ReadsHistory(lines: seq<string>, history: seq<string>, next: nat, full: bool, k: nat)
    requires Holds(lines, history, next, full) && k < if full then |lines| else next
    ensures var count, oldest := if full then |lines| else next, if full then next else 0;
            lines[(oldest + k) % |lines|] == history[|history| - count + k]
  {
    var count := if full then |lines| else next;
    assert Slot(|history| - count + k, |lines|) == (|history| - count + k) % |lines|;
    if full {
      Advance(|history|, k, |lines|);
      Round(|history| - |lines| + k, |lines|);
    }
  }

  class LogRing {
    const lines: array<string>
    var next: nat
    var full: bool
    /** Every line added since the last reset. */
    ghost var history: seq<string>

    ghost predicate Valid()
      reads this, lines
    {
      if lines.Length == 0 then next == 0 && !full && history == [] else Holds(lines[..], history, next, full)
    }

    constructor (size: int)
      ensures Valid() && fresh(lines) && history == [] && lines.Length == if size <= 0 then 1 else size
    {
      var n := if size <= 0 then 1 else size;
      lines := new string[n](_ => "");
      next, full, history := 0, false, [];
    }

    method Reset()
      requires Valid()
      modifies this, lines
      ensures Valid() && history == []
    {
      next, full, history := 0, false, [];
      for i := 0 to lines.Length
        modifies lines
      {
        lines[i] := "";
      }
    }

    method Add(line: string)
      requires Valid()
      modifies this, lines
      ensures Valid() && history == if lines.Length == 0 then old(history) else old(history) + [line]
    {
      if lines.Length == 0 {
        return;
      }
      var size := lines.Length;
      AddKeeps(lines[..], history, next, full, line);
      lines[next] := line;
      next := (next + 1) % size;
      if next == 0 {
        full := true;
      }
      history := history + [line];
    }

    function Count(): nat
      reads this
    {
      if full then lines.Length else next
    }

    /** The line `k` places after the oldest retained one. */
    method Read(k: nat) returns (line: string)
      requires Valid() && k < Count() <= |history|
      ensures line == history[|history| - Count() + k]
    {
      ReadsHistory(lines[..], history, next, full, k);
      var oldest := if full then next else 0;
      line := lines[(oldest + k) % lines.Length];
    }

    /** The last lines in the order they came: as many as asked for, or all that are retained. */
    method Tail(n: int) returns (out: seq<string>)
      requires Valid()
      ensures var retained := if |history| < lines.Length then |history| else lines.Length;
              out == Last(history, if n <= 0 || n > retained then retained else n)
    {
      var count := Count();
      if count == 0 {
        return [];
      }
      var m := if n <= 0 || n > count then count else n;
      var start := count - m;
      out := [];
      for i := 0 to m
        invariant |out| == i && forall j :: 0 <= j < i ==> out[j] == history[|history| - m + j]
      {
        var line := Read(start + i);
        out := out + [line];
      }
    }
  }
}
