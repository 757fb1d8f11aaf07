/** `format_config`: re-indents a device configuration. The loop is proved equal to a line by
    line definition; the laws say that it changes nothing but indentation and that formatting
    twice is formatting once. */
module ConfigFormat {
  import opened Text
  import opened Wrappers

  predicate Closes(line: string) {
    line == "end" || line == "exit" || line == "quit" || line == "!"
  }

  predicate StartsWith(line: string, head: string) {
    head <= line
  }

  predicate Opens(line: string) {
    || StartsWith(line, "interface") || StartsWith(line, "router")
    || StartsWith(line, "policy-map") || StartsWith(line, "class-map")
  }

  /** The indent level before line `i` is looked at. */
  function LevelBefore(lines: seq<string>, i: nat): nat
    requires i <= |lines|
    decreases i, 0
  {
    if i == 0 then 0 else LevelOf(lines, i - 1) + if Opens(Strip(lines[i - 1])) then 1 else 0
  }

  /** The indent level line `i` is written with. */
  function LevelOf(lines: seq<string>, i: nat): nat
    requires i < |lines|
    decreases i, 1
  {
    var before := LevelBefore(lines, i);
    if Closes(Strip(lines[i])) then Max(0, before - 1) else before
  }

  function Indent(level: nat): string {
    if level == 0 then "" else "  " + Indent(level - 1)
  }

  function Written(level: nat, line: string): string {
    if line != "" && !StartsWith(line, "!") then Indent(level) + line else line
  }

  function Formatted(lines: seq<string>, n: nat): (r: seq<string>)
    requires n <= |lines|
    ensures |r| == n
    ensures forall i :: 0 <= i < n ==> r[i] == Written(LevelOf(lines, i), Strip(lines[i]))
  {
    if n == 0 then [] else Formatted(lines, n - 1) + [Written(LevelOf(lines, n - 1), Strip(lines[n - 1]))]
  }

  function Format(content: string): string {
    Join(Formatted(Split(content), |Split(content)|))
  }

  method FormatConfig(content: string) returns (r: string)
    ensures r == Format(content)
  {
    hide Strip, Split, Join, Closes, Opens, StartsWith, Indent;
    var lines := Split(content);
    var formattedLines := [];
    var indentLevel: int := 0;
    for i := 0 to |lines|
      invariant formattedLines == Formatted(lines, i)
      invariant indentLevel == LevelBefore(lines, i) && indentLevel >= 0
    {
      var line := Strip(lines[i]);
      if Closes(line) {
        indentLevel := Max(0, indentLevel - 1);
      }
      if line != "" && !StartsWith(line, "!") {
        formattedLines := formattedLines + [Indent(indentLevel) + line];
      } else {
        formattedLines := formattedLines + [line];
      }
      if Opens(line) {
        indentLevel := indentLevel + 1;
      }
    }
    r := Join(formattedLines);
  }

  lemma {:induction false} IndentIsSpace(level: nat)
    ensures |Indent(level)| == 2 * level && forall c :: c in Indent(level) ==> c == ' '
  {
    if level > 0 { IndentIsSpace(level - 1); }
  }

  /** Writing a line only puts white space in front of its stripped text. */
  lemma WrittenStrips(level: nat, line: string)
    ensures Strip(Written(level, Strip(line))) == Strip(line)
    ensures '\n' !in line ==> '\n' !in Written(level, Strip(line))
  {
    var _, _ := StripTrims(line);
    IndentIsSpace(level);
    StripPadded(Indent(level), Strip(line));
    StripFixed(Strip(line));
  }

  lemma {:induction false} LevelsAlike(a: seq<string>, b: seq<string>, i: nat)
    requires |a| == |b| && i < |a|
    requires forall k :: 0 <= k < |a| ==> Strip(a[k]) == Strip(b[k])
    ensures LevelOf(a, i) == LevelOf(b, i)
  {
    if i > 0 { LevelsAlike(a, b, i - 1); }
  }

  lemma {:induction false} FormattedLines(content: string)
    ensures Split(Format(content)) == Formatted(Split(content), |Split(content)|)
  {
    var lines := Split(content);
    var out := Formatted(lines, |lines|);
    SplitHasNoBreaks(content);
    forall i | 0 <= i < |out| ensures '\n' !in out[i] { WrittenStrips(LevelOf(lines, i), lines[i]); }
    SplitJoin(out);
  }

  /** The stripped lines of the output are the stripped lines of the input, in order; a
      non-blank line not starting with "!" is led by two blanks per level, any other by none. */
  lemma {:induction false} KeepsLines(content: string)
    ensures var lines, out := Split(content), Split(Format(content));
            && |out| == |lines|
            && forall i :: 0 <= i < |lines| ==>
                 && Strip(out[i]) == Strip(lines[i])
                 && |out[i]| == |Strip(lines[i])| + 2 * Shown(lines, i)
                 && (forall c :: 0 <= c < 2 * Shown(lines, i) ==> out[i][c] == ' ')
  {
    hide Strip, Split, Join, Indent;
    var lines := Split(content);
    FormattedLines(content);
    var out := Split(Format(content));
    forall i | 0 <= i < |lines|
      ensures Strip(out[i]) == Strip(lines[i])
      ensures |out[i]| == |Strip(lines[i])| + 2 * Shown(lines, i)
      ensures forall c :: 0 <= c < 2 * Shown(lines, i) ==> out[i][c] == ' '
    {
      WrittenStrips(LevelOf(lines, i), lines[i]);
      WrittenShape(LevelOf(lines, i), Strip(lines[i]));
    }
  }

  lemma WrittenShape(level: nat, line: string)
    ensures var shown := if line != "" && !StartsWith(line, "!") then level else 0;
            var out := Written(level, line);
            |out| == |line| + 2 * shown && forall c :: 0 <= c < 2 * shown ==> out[c] == ' '
  {
    IndentIsSpace(level);
    assert forall c :: 0 <= c < |Indent(level)| ==> Indent(level)[c] in Indent(level);
  }

  /** The level a line is shown at: blank lines and "!" lines stay at the margin. */
  function Shown(lines: seq<string>, i: nat): nat
    requires i < |lines|
  {
    if Strip(lines[i]) != "" && !StartsWith(Strip(lines[i]), "!") then LevelOf(lines, i) else 0
  }

  /** Formatting is idempotent, for every text. */
  lemma Idempotent(content: string)
    ensures Format(Format(content)) == Format(content)
  {
    var lines, out := Split(content), Split(Format(content));
    KeepsLines(content);
    FormattedLines(content);
    forall i | 0 <= i < |out|
      ensures Formatted(out, |out|)[i] == Formatted(lines, |lines|)[i]
    {
      LevelsAlike(out, lines, i);
    }
    assert Formatted(out, |out|) == Formatted(lines, |lines|);
  }

  // ---------- the indentation, told from the lines alone ----------

  /** +1 for a line that opens a block, -1 for one that closes a block, else 0. */
  function Change(line: string): int {
    var text := Strip(line);
    if text == "end" || text == "exit" || text == "quit" || text == "!" then -1
    else if "interface" <= text || "router" <= text || "policy-map" <= text || "class-map" <= text then 1
    else 0
  }

  /** The sum of the changes of lines `a` to `b` - 1. */
  function Balance(lines: seq<string>, a: nat, b: nat): int
    requires a <= b <= |lines|
    decreases b
  {
    if a == b then 0 else Balance(lines, a, b - 1) + Change(lines[b - 1])
  }

  /** `level` is the largest balance of any stretch of lines that ends before line `i`. */
  ghost predicate LargestBalance(lines: seq<string>, i: nat, level: int)
    requires i <= |lines|
  {
    && (forall j: nat :: j <= i ==> Balance(lines, j, i) <= level)
    && exists j: nat :: j <= i && Balance(lines, j, i) == level
  }

  lemma ChangeLaw(line: string)
    ensures Closes(Strip(line)) <==> Change(line) == -1
    ensures Opens(Strip(line)) <==> Change(line) == 1
    ensures !(Closes(Strip(line)) && Opens(Strip(line)))
  {
    hide Strip;
    var text := Strip(line);
    if Closes(text) {
      assert "interface"[0] == 'i' && "router"[0] == 'r' && "policy-map"[0] == 'p' && "class-map"[0] == 'c';
      assert text[0] == 'e' || text[0] == 'q' || text[0] == '!';
    }
  }

  lemma {:induction false} LevelIsLargestBalance(lines: seq<string>, i: nat)
    requires i <= |lines|
    ensures LargestBalance(lines, i, LevelBefore(lines, i))
    decreases i
  {
    hide Strip, Closes, Opens, Change;
    if i == 0 {
      assert Balance(lines, 0, 0) == 0;
    } else {
      LevelIsLargestBalance(lines, i - 1);
      ChangeLaw(lines[i - 1]);
      var before, level := LevelBefore(lines, i - 1), LevelBefore(lines, i);
      var j: nat :| j <= i - 1 && Balance(lines, j, i - 1) == before;
      assert Balance(lines, j, i) == before + Change(lines[i - 1]);
      assert Balance(lines, i, i) == 0;
      ChangeRange(lines[i - 1]);
      forall j: nat | j <= i ensures Balance(lines, j, i) <= level {
        if j < i { assert Balance(lines, j, i) == Balance(lines, j, i - 1) + Change(lines[i - 1]); }
      }
    }
  }

  lemma ChangeRange(line: string)
    ensures -1 <= Change(line) <= 1
  {
    hide Strip;
  }

  /** Every output line is its stripped text behind two blanks a level; blank lines and lines that start
      with "!" stand at the margin. The level is the largest balance of the lines before, less one
      for a closing line unless it is 0. */
  lemma {:induction false} IndentLaw(content: string, i: nat, level: int)
    requires i < |Split(content)| && LargestBalance(Split(content), i, level)
    ensures var lines, out := Split(content), Split(Format(content));
            var text := Strip(lines[i]);
            var depth := if text == "" || text[0] == '!' then 0
                         else if Change(lines[i]) == -1 && level > 0 then level - 1 else level;
            && depth >= 0 && |out| == |lines| && |out[i]| == 2 * depth + |text|
            && out[i][2 * depth..] == text
            && forall c :: 0 <= c < 2 * depth ==> out[i][c] == ' '
  {
    hide Strip, Split, Join, Indent, Change;
    var lines := Split(content);
    var text := Strip(lines[i]);
    LevelIsLargestBalance(lines, i);
    ChangeLaw(lines[i]);
    FormattedLines(content);
    WrittenShape(LevelOf(lines, i), text);
    WrittenEnds(LevelOf(lines, i), text);
  }

  lemma WrittenEnds(level: nat, line: string)
    ensures var out := Written(level, line); |out| >= |line| && out[|out| - |line|..] == line
  {
    hide Indent;
  }
}
