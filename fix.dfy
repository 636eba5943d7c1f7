/** The driver `fix_kicad_pcb_paths`: check that the input exists, name the
    output file, and rewrite the input line by line while counting the
    lines that changed. The file system is abstracted: whether the input
    exists is a flag, and the input and output files are sequences of lines. */
module Fix {
  import opened Text
  import opened PathNames
  import opened Rewrite

  /** What a run leaves behind: nothing when the input file is missing,
      otherwise the output file's name, its lines, and the changed count. */
  datatype Outcome =
    | InputMissing
    | Written(outputName: string, lines: seq<string>, linesChanged: nat)

  /** The number of positions at which two equally long files differ. The
      bound below is only part of its meaning: `CountChangedIsDifferingPositions`
      and `CountChangedZeroIff` say what it counts. */
  function CountChanged(a: seq<string>, b: seq<string>): (n: nat)
    requires |a| == |b|
    ensures n <= |a|
    decreases |a|
  {
    if |a| == 0 then 0
    else
      var k := |a| - 1;
      CountChanged(a[..k], b[..k]) + (if a[k] != b[k] then 1 else 0)
  }

  /** Appending one line to each file adds one exactly when the lines differ. */
  lemma CountChangedAppend(a: seq<string>, b: seq<string>, x: string, y: string)
    requires |a| == |b|
    ensures CountChanged(a + [x], b + [y]) == CountChanged(a, b) + (if x != y then 1 else 0)
  {
    assert (a + [x])[..|a|] == a;
    assert (b + [y])[..|b|] == b;
  }

  /** No line counts as changed exactly when the two files are equal. */
  lemma {:induction false} CountChangedZeroIff(a: seq<string>, b: seq<string>)
    requires |a| == |b|
    ensures CountChanged(a, b) == 0 <==> a == b
    decreases |a|
  {
    if |a| > 0 {
      var k := |a| - 1;
      CountChangedZeroIff(a[..k], b[..k]);
      assert a == a[..k] + [a[k]] && b == b[..k] + [b[k]];
    }
  }

  /** The positions at which two equally long files differ. */
  ghost function DifferingPositions(a: seq<string>, b: seq<string>): set<int>
    requires |a| == |b|
  {
    set i | 0 <= i < |a| && a[i] != b[i]
  }

  /** The count is the number of differing positions. */
  lemma {:induction false} CountChangedIsDifferingPositions(a: seq<string>, b: seq<string>)
    requires |a| == |b|
    ensures CountChanged(a, b) == |DifferingPositions(a, b)|
    decreases |a|
  {
    if |a| > 0 {
      var k := |a| - 1;
      CountChangedIsDifferingPositions(a[..k], b[..k]);
      var before := DifferingPositions(a[..k], b[..k]);
      var last: set<int> := if a[k] != b[k] then {k} else {};
      assert DifferingPositions(a, b) == before + last;
      assert k !in before;
    }
  }

  /** Every line of `input` rewritten, in order. The length is stated here;
      `RewriteAllLines` and `RewriteAllAppend` say which line goes where. */
  function RewriteAll(input: seq<string>, folder: string): (out: seq<string>)
    ensures |out| == |input|
    decreases |input|
  {
    if input == [] then []
    else
      var k := |input| - 1;
      RewriteAll(input[..k], folder) + [RewriteLine(input[k], folder)]
  }

  /** The file rewritten one line further. */
  lemma RewriteAllAppend(prefix: seq<string>, line: string, folder: string)
    ensures RewriteAll(prefix + [line], folder)
      == RewriteAll(prefix, folder) + [RewriteLine(line, folder)]
  {
    assert (prefix + [line])[..|prefix|] == prefix;
  }

  /** The rewritten file holds, at each position, the rewritten input line. */
  lemma {:induction false} RewriteAllLines(input: seq<string>, folder: string)
    ensures forall i :: 0 <= i < |input| ==>
      RewriteAll(input, folder)[i] == RewriteLine(input[i], folder)
    decreases |input|
  {
    if input != [] {
      var k := |input| - 1;
      RewriteAllLines(input[..k], folder);
    }
  }

  /** One more line processed keeps both loop invariants: the output is the
      rewritten prefix and the count is the number of changed lines in it. */
  lemma LoopStep(input: seq<string>, n: nat, output: seq<string>, written: string,
                 folder: string)
    requires n < |input| && output == RewriteAll(input[..n], folder)
    requires written == RewriteLine(input[n], folder)
    ensures output + [written] == RewriteAll(input[..n + 1], folder)
    ensures CountChanged(input[..n + 1], output + [written])
      == CountChanged(input[..n], output) + (if written != input[n] then 1 else 0)
  {
    assert input[..n + 1] == input[..n] + [input[n]];
    RewriteAllAppend(input[..n], input[n], folder);
    CountChangedAppend(input[..n], output, input[n], written);
  }

  /** The body of the loop over input lines, written step by step as the
      program writes it (fix.py:41-56); it is equal to `RewriteLine`. Search
      the line, and on a match rewrite every occurrence of the captured path
      to `${KIPRJMOD}/<folder>/<filename>`. Returns the line written to the
      output and whether it differs from the input line. */
  method FixLine(line: string, folder: string) returns (written: string, changed: bool)
    ensures written == RewriteLine(line, folder)
    ensures changed <==> written != line
    ensures changed ==> Search(line).Some?
  {
    var found := Search(line);
    if found.Some? {
      var oldPath := found.value.value;
      var filename := FileName(oldPath);
      var newPath := NewPath(folder, filename);
      var newLine := Replace(line, oldPath, newPath);
      written := newLine;
      changed := newLine != line;
    } else {
      written := line;
      changed := false;
    }
  }

  /** `fix_kicad_pcb_paths(input_filename, shapes_folder)`. A missing input
      produces nothing; otherwise one output line is written per input line,
      in order, each the rewritten input line, and the count is the number
      of lines that differ from the input. */
  method FixKicadPcbPaths(inputName: string, inputExists: bool, input: seq<string>,
                          shapesFolder: string)
    returns (r: Outcome)
    ensures !inputExists <==> r == InputMissing
    ensures r.Written? ==> r.outputName == OutputName(inputName)
    ensures r.Written? ==> r.lines == RewriteAll(input, shapesFolder)
    ensures r.Written? ==> r.linesChanged == CountChanged(input, r.lines) <= |input|
  {
    if !inputExists {
      return InputMissing;
    }
    var outputName := OutputName(inputName);
    var output: seq<string> := [];
    var linesChanged: nat := 0;
    for n := 0 to |input|
      invariant output == RewriteAll(input[..n], shapesFolder)
      invariant linesChanged == CountChanged(input[..n], output)
    {
      var line := input[n];
      var written, changed := FixLine(line, shapesFolder);
      LoopStep(input, n, output, written, shapesFolder);
      output := output + [written];
      if changed {
        linesChanged := linesChanged + 1;
      }
    }
    assert input[..|input|] == input;
    return Written(outputName, output, linesChanged);
  }
}
