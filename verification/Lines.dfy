/** Newline-separated text. */
module Lines {

  /** `source.split('\n')`. */
  function Split(source: string): (lines: seq<string>)
    ensures lines != []
  {
    if source == "" then [""]
    else if source[0] == '\n' then [""] + Split(source[1..])
    else
      var rest := Split(source[1..]);
      [[source[0]] + rest[0]] + rest[1..]
  }

  /** `lines.join('\n')`. */
  function Join(lines: seq<string>): string {
    if lines == [] then ""
    else if |lines| == 1 then lines[0]
    else lines[0] + "\n" + Join(lines[1..])
  }

  lemma {:induction false} JoinSplit(source: string)
    ensures Join(Split(source)) == source
  {
    if source != "" {
      var rest := Split(source[1..]);
      JoinSplit(source[1..]);
      if source[0] == '\n' {
        assert ([""] + rest)[1..] == rest;
        assert source == [source[0]] + source[1..];
      } else {
        var lines := [[source[0]] + rest[0]] + rest[1..];
        assert lines[1..] == rest[1..];
        assert source == [source[0]] + source[1..];
      }
    }
  }

  lemma {:induction false} JoinConcat(a: seq<string>, b: seq<string>)
    requires a != [] && b != []
    ensures Join(a + b) == Join(a) + "\n" + Join(b)
    decreases |a|
  {
    if |a| == 1 {
      assert (a + b)[1..] == b;
    } else {
      JoinConcat(a[1..], b);
      assert (a + b)[1..] == a[1..] + b;
    }
  }

  ghost predicate NoBreaks(lines: seq<string>) {
    forall line :: line in lines ==> '\n' !in line
  }

  lemma {:induction false} SplitNoBreaks(source: string)
    ensures NoBreaks(Split(source))
  {
    if source != "" {
      var rest := Split(source[1..]);
      SplitNoBreaks(source[1..]);
      forall line | line in Split(source) ensures '\n' !in line {
        if line in rest {
        } else if source[0] == '\n' {
          assert line == "";
        } else {
          assert rest[0] in rest && line == [source[0]] + rest[0];
        }
      }
    }
  }

  /** A piece without line breaks is not split any further. */
  lemma {:induction false} SplitHead(line: string, tail: string)
    requires '\n' !in line
    ensures Split(line) == [line] && Split(line + "\n" + tail) == [line] + Split(tail)
  {
    var all := line + "\n" + tail;
    if line == "" {
      assert all[1..] == tail;
    } else {
      SplitHead(line[1..], tail);
      assert line[0] in line && all[0] == line[0] && all[1..] == line[1..] + "\n" + tail;
      assert line == [line[0]] + line[1..];
    }
  }

  /** The only list of lines without breaks that joins to a text is its split. */
  lemma {:induction false} SplitUnique(lines: seq<string>)
    requires lines != [] && NoBreaks(lines)
    ensures Split(Join(lines)) == lines
  {
    var line, rest := lines[0], lines[1..];
    assert line in lines && forall l :: l in rest ==> l in lines;
    if rest == [] {
      SplitHead(line, "");
    } else {
      SplitUnique(rest);
      SplitHead(line, Join(rest));
      assert lines == [line] + rest;
    }
  }
}
