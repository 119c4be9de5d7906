/**
 The program as a whole: load the pattern file, then run the requested
 number of generations on the loaded matrix.
 */
module Program {
  import opened Life
  import opened Matrix
  import opened Loader
  import opened Engine

  /**
   Loads `lines` and, when that succeeds, runs one step per entry of `runs`
   (step s sees allocation outcomes `runs[s]`). A file that does not load
   ends the run with no matrix and no step taken.
   */
  method Run(lines: seq<string>, runs: seq<seq<bool>>) returns (m: array?<array<int>>, done: nat)
    requires Parse(lines).Ok? ==> forall s :: 0 <= s < |runs| ==> |runs[s]| == Parse(lines).value.rows
    ensures m == null <==> Parse(lines).Err?
    ensures m == null ==> done == 0
    ensures m != null ==> var l := Parse(lines).value;
      && done == Successes(runs, |runs|)
      && IsMatrix(m, l.rows, l.cols)
      && Rows(m) == Evolve(l.grid, l.rows, l.cols, done)
  {
    var rows, cols;
    m, rows, cols := Load(lines);
    if m == null {
      return null, 0;
    }
    done := Simulate(m, rows, cols, runs);
  }
}
