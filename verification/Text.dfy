/** The Python string operations the configuration module uses: `strip`, `split('\n')`,
    `'\n'.join` and `startswith`. */
module Text {
  /** The characters Python's `str.strip()` removes. */
  predicate IsSpace(c: char) {
    || '\U{0009}' <= c <= '\U{000D}'
    || '\U{001C}' <= c <= '\U{0020}'
    || c == '\U{0085}' || c == '\U{00A0}' || c == '\U{1680}'
    || '\U{2000}' <= c <= '\U{200A}'
    || c == '\U{2028}' || c == '\U{2029}' || c == '\U{202F}' || c == '\U{205F}' || c == '\U{3000}'
  }

  function RStrip(s: string): string {
    if s != [] && IsSpace(s[|s| - 1]) then RStrip(s[..|s| - 1]) else s
  }

  function Strip(s: string): string {
    if s != [] && IsSpace(s[0]) then Strip(s[1..]) else RStrip(s)
  }

  predicate Trimmed(s: string) {
    s == [] || (!IsSpace(s[0]) && !IsSpace(s[|s| - 1]))
  }

  predicate AllSpace(s: string) {
    forall c :: c in s ==> IsSpace(c)
  }

  lemma {:induction false} RStripSplits(s: string) returns (trail: string)
    ensures s == RStrip(s) + trail && AllSpace(trail)
    ensures RStrip(s) != [] ==> !IsSpace(RStrip(s)[|RStrip(s)| - 1])
    decreases |s|
  {
    if s != [] && IsSpace(s[|s| - 1]) {
      trail := RStripSplits(s[..|s| - 1]);
      assert s == RStrip(s) + (trail + [s[|s| - 1]]);
      trail := trail + [s[|s| - 1]];
    } else {
      trail := "";
    }
  }

  /** `strip` cuts off white space at both ends and nothing else: the result is trimmed, and the
      text is the result between two runs of white space. */
  lemma {:induction false} StripTrims(s: string) returns (lead: string, trail: string)
    ensures Trimmed(Strip(s))
    ensures s == lead + Strip(s) + trail && AllSpace(lead) && AllSpace(trail)
    decreases |s|
  {
    if s != [] && IsSpace(s[0]) {
      lead, trail := StripTrims(s[1..]);
      assert s == [s[0]] + s[1..];
      assert s == ([s[0]] + lead) + Strip(s) + trail;
      lead := [s[0]] + lead;
    } else {
      trail := RStripSplits(s);
      lead := "";
      assert Strip(s) != [] ==> Strip(s)[0] == s[0];
    }
  }

  /** Leading white space before trimmed text is all that `strip` removes. */
  lemma {:induction false} StripPadded(pad: string, t: string)
    requires Trimmed(t) && forall c :: c in pad ==> IsSpace(c)
    ensures Strip(pad + t) == t
    decreases |pad|
  {
    if pad == [] {
      assert pad + t == t;
    } else {
      assert (pad + t)[1..] == pad[1..] + t;
      StripPadded(pad[1..], t);
    }
  }

  lemma StripFixed(t: string)
    ensures Strip(t) == t <==> Trimmed(t)
  {
    var _, _ := StripTrims(t);
    if Trimmed(t) {
      StripPadded("", t);
      assert "" + t == t;
    }
  }

  function Split(s: string): (lines: seq<string>)
    ensures lines != []
  {
    if s == [] then [""]
    else
      var rest := Split(s[1..]);
      if s[0] == '\n' then [""] + rest else [[s[0]] + rest[0]] + rest[1..]
  }

  function Join(lines: seq<string>): string {
    if lines == [] then ""
    else if |lines| == 1 then lines[0]
    else lines[0] + "\n" + Join(lines[1..])
  }

  lemma {:induction false} SplitHasNoBreaks(s: string)
    ensures forall i :: 0 <= i < |Split(s)| ==> '\n' !in Split(s)[i]
  {
    if s != [] { SplitHasNoBreaks(s[1..]); }
  }

  lemma {:induction false} SplitLine(line: string, rest: string)
    requires '\n' !in line
    ensures Split(line + "\n" + rest) == [line] + Split(rest)
    decreases |line|
  {
    var s := line + "\n" + rest;
    if line == [] {
      assert s[1..] == rest;
    } else {
      assert s[1..] == line[1..] + "\n" + rest;
      SplitLine(line[1..], rest);
      assert [line[0]] + line[1..] == line;
    }
  }

  lemma {:induction false} SplitLast(line: string)
    requires '\n' !in line
    ensures Split(line) == [line]
    decreases |line|
  {
    if line != [] {
      SplitLast(line[1..]);
      assert [line[0]] + line[1..] == line;
    }
  }

  lemma {:induction false} SplitJoin(lines: seq<string>)
    requires lines != [] && forall i :: 0 <= i < |lines| ==> '\n' !in lines[i]
    ensures Split(Join(lines)) == lines
    decreases |lines|
  {
    if |lines| == 1 {
      SplitLast(lines[0]);
    } else {
      SplitJoin(lines[1..]);
      SplitLine(lines[0], Join(lines[1..]));
    }
  }

  /** Joining the lines of a text gives the text back. */
  lemma {:induction false} JoinSplit(s: string)
    ensures Join(Split(s)) == s
  {
    if s != [] {
      var rest := Split(s[1..]);
      JoinSplit(s[1..]);
      if s[0] == '\n' {
        assert ([""] + rest)[1..] == rest;
        assert s == "" + "\n" + s[1..];
      } else {
        var lines := [[s[0]] + rest[0]] + rest[1..];
        assert lines[1..] == rest[1..];
        assert s == [s[0]] + s[1..];
        JoinFirst([s[0]], rest);
      }
    }
  }

  lemma JoinFirst(head: string, lines: seq<string>)
    requires lines != []
    ensures Join([head + lines[0]] + lines[1..]) == head + Join(lines)
  {
    var all := [head + lines[0]] + lines[1..];
    assert all[1..] == lines[1..];
    if |lines| > 1 {
      assert head + lines[0] + "\n" + Join(lines[1..]) == head + (lines[0] + "\n" + Join(lines[1..]));
    }
  }
}
