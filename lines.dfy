/**
 * Joining text with a separator, and splitting text back into lines at each
 * newline character.
 */
module Lines {

  /** The parts in order, with `sep` between neighbours and nowhere else. */
  function Join(parts: seq<string>, sep: string): string
    decreases |parts|
  {
    if |parts| == 0 then ""
    else if |parts| == 1 then parts[0]
    else parts[0] + sep + Join(parts[1..], sep)
  }

  /** Appending one more part adds one separator and that part. */
  lemma {:induction false} JoinSnoc(parts: seq<string>, p: string, sep: string)
    requires |parts| >= 1
    ensures Join(parts + [p], sep) == Join(parts, sep) + sep + p
    decreases |parts|
  {
    if |parts| == 1 {
      assert (parts + [p])[1..] == [p];
    } else {
      JoinSnoc(parts[1..], p, sep);
      assert (parts + [p])[1..] == parts[1..] + [p];
    }
  }

  /** The position of the first occurrence of `c` in `s`. */
  function IndexOf(s: string, c: char): (i: nat)
    requires c in s
    ensures i < |s| && s[i] == c && c !in s[..i]
  {
    if s[0] == c then 0 else 1 + IndexOf(s[1..], c)
  }

  /** The lines of `s`: the pieces between newline characters, newlines dropped. */
  function SplitLines(s: string): seq<string>
    decreases |s|
  {
    if '\n' in s then
      var i := IndexOf(s, '\n');
      [s[..i]] + SplitLines(s[i + 1..])
    else [s]
  }

  /** A newline-free line followed by a newline splits off as the first line. */
  lemma SplitLinesCons(line: string, rest: string)
    requires '\n' !in line
    ensures SplitLines(line + "\n" + rest) == [line] + SplitLines(rest)
  {
    var s := line + "\n" + rest;
    assert s[|line|] == '\n';
    assert s[..|line|] == line;
    var i := IndexOf(s, '\n');
    assert i == |line|;
    assert s[..i] == line;
    assert s[i + 1..] == rest;
  }

  /** A part in front of a non-empty run of parts is followed by one separator. */
  lemma JoinCons(p: string, parts: seq<string>, sep: string)
    requires |parts| >= 1
    ensures Join([p] + parts, sep) == p + sep + Join(parts, sep)
  {
    assert ([p] + parts)[1..] == parts;
  }

  /**
   * A text made of an optional note, a line and a joined run of parts, each
   * followed by the separator, is the join of all of them.
   */
  lemma JoinLayout(note: string, line: string, tail: seq<string>, sep: string)
    requires |tail| >= 1
    ensures (if note != "" then note + sep else "") + line + sep + Join(tail, sep) ==
            Join((if note == "" then [] else [note]) + ([line] + tail), sep)
  {
    JoinCons(line, tail, sep);
    if note == "" {
      assert [] + ([line] + tail) == [line] + tail;
      assert "" + line == line;
    } else {
      JoinCons(note, [line] + tail, sep);
      assert (note + sep) + line + sep + Join(tail, sep) == (note + sep) + (line + sep + Join(tail, sep));
    }
  }

  /** Splitting undoes joining with newlines, when no part holds a newline itself. */
  lemma {:induction false} SplitJoin(parts: seq<string>)
    requires |parts| >= 1
    requires forall i :: 0 <= i < |parts| ==> '\n' !in parts[i]
    ensures SplitLines(Join(parts, "\n")) == parts
    decreases |parts|
  {
    if |parts| > 1 {
      SplitLinesCons(parts[0], Join(parts[1..], "\n"));
      SplitJoin(parts[1..]);
    }
  }

}
