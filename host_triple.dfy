/**
 * Extraction of the host target triple from the text printed by `rustc -vV`.
 * The text is cut into lines at every '\n'; each line that begins with
 * "host: " replaces the candidate triple with the rest of that line, so the
 * last such line wins; an empty candidate at the end is fatal.
 */
module HostTriple {
  import opened Wrappers

  /** The key in front of the triple on the `host` line. */
  const HOST_PREFIX: string := "host: "

  /** The panic message when no non-empty triple was found. */
  const BAD_OUTPUT: string := "Bad output"

  /** `str::split("\n")`: the pieces between newlines, empty pieces included. */
  function SplitLines(s: string): (lines: seq<string>)
    ensures |lines| >= 1
    ensures forall k :: 0 <= k < |lines| ==> '\n' !in lines[k]
    decreases |s|
  {
    if s == [] then [[]]
    else
      var rest := SplitLines(s[1..]);
      if s[0] == '\n' then [[]] + rest
      else [[s[0]] + rest[0]] + rest[1..]
  }

  /** The inverse of `SplitLines`: the pieces glued back together with '\n'. */
  function JoinLines(lines: seq<string>): string
  {
    if lines == [] then []
    else if |lines| == 1 then lines[0]
    else lines[0] + "\n" + JoinLines(lines[1..])
  }

  /** Splitting loses nothing: joining the pieces gives the text back. */
  lemma {:induction false} JoinSplitLines(s: string)
    ensures JoinLines(SplitLines(s)) == s
    decreases |s|
  {
    if s != [] {
      var rest := SplitLines(s[1..]);
      JoinSplitLines(s[1..]);
      if s[0] == '\n' {
        assert ([[]] + rest)[1..] == rest;
      } else if |rest| == 1 {
        assert [s[0]] + rest[0] == s;
      } else {
        assert ([[s[0]] + rest[0]] + rest[1..])[1..] == rest[1..];
        assert JoinLines(rest) == rest[0] + "\n" + JoinLines(rest[1..]);
      }
    }
  }

  /** Text without a newline in front of `s` joins the first piece of `s`. */
  lemma {:induction false} SplitLinesPrepend(line: string, s: string)
    requires '\n' !in line
    ensures SplitLines(line + s) == [line + SplitLines(s)[0]] + SplitLines(s)[1..]
    decreases |line|
  {
    if line != [] {
      assert (line + s)[0] == line[0];
      assert (line + s)[1..] == line[1..] + s;
      SplitLinesPrepend(line[1..], s);
      assert [line[0]] + (line[1..] + SplitLines(s)[0]) == line + SplitLines(s)[0];
    } else {
      assert line + s == s;
      assert line + SplitLines(s)[0] == SplitLines(s)[0];
      assert [line + SplitLines(s)[0]] + SplitLines(s)[1..] == SplitLines(s);
    }
  }

  /** Lines without newlines are exactly what splitting their join gives back. */
  lemma {:induction false} SplitJoinLines(lines: seq<string>)
    requires |lines| >= 1
    requires forall k :: 0 <= k < |lines| ==> '\n' !in lines[k]
    ensures SplitLines(JoinLines(lines)) == lines
    decreases |lines|
  {
    if |lines| == 1 {
      SplitLinesPrepend(lines[0], []);
      assert lines[0] + [] == lines[0];
    } else {
      var tail := JoinLines(lines[1..]);
      SplitJoinLines(lines[1..]);
      SplitLinesPrepend(lines[0], "\n" + tail);
      assert ("\n" + tail)[1..] == tail;
      assert SplitLines("\n" + tail) == [[]] + lines[1..];
      assert lines[0] + [] == lines[0];
      assert lines[0] + "\n" + tail == lines[0] + ("\n" + tail);
    }
  }

  /** `part.starts_with("host: ")`: the key must open the line. */
  predicate IsHostLine(line: string) {
    |HOST_PREFIX| <= |line| && line[..|HOST_PREFIX|] == HOST_PREFIX
  }

  /** The rest of a host line after the key. */
  function HostValue(line: string): string
    requires IsHostLine(line)
  {
    line[|HOST_PREFIX|..]
  }

  /** The value of the last host line, if any line is a host line. */
  function LastHost(lines: seq<string>): Option<string>
  {
    if lines == [] then None
    else if IsHostLine(lines[|lines| - 1]) then Some(HostValue(lines[|lines| - 1]))
    else LastHost(lines[..|lines| - 1])
  }

  /** Line `i` is a host line and no host line follows it. */
  ghost predicate IsLastHostLine(lines: seq<string>, i: int) {
    0 <= i < |lines| && IsHostLine(lines[i]) &&
    forall j :: i < j < |lines| ==> !IsHostLine(lines[j])
  }

  /** `LastHost` finds nothing exactly when no line is a host line. */
  lemma {:induction false} LastHostNone(lines: seq<string>)
    ensures LastHost(lines) == None <==> forall i :: 0 <= i < |lines| ==> !IsHostLine(lines[i])
    decreases |lines|
  {
    if lines != [] {
      var init := lines[..|lines| - 1];
      LastHostNone(init);
      assert forall i :: 0 <= i < |init| ==> init[i] == lines[i];
    }
  }

  /** The value of a host line with no host line after it is what `LastHost` finds. */
  lemma {:induction false} LastHostAt(lines: seq<string>, i: int)
    requires IsLastHostLine(lines, i)
    ensures LastHost(lines) == Some(HostValue(lines[i]))
    decreases |lines|
  {
    if i < |lines| - 1 {
      var init := lines[..|lines| - 1];
      assert !IsHostLine(lines[|lines| - 1]);
      assert forall j :: i < j < |init| ==> init[j] == lines[j];
      LastHostAt(init, i);
    }
  }

  /** Whatever `LastHost` finds comes from the last host line. */
  lemma {:induction false} LastHostSome(lines: seq<string>)
    requires LastHost(lines).Some?
    ensures exists i :: IsLastHostLine(lines, i) && LastHost(lines) == Some(HostValue(lines[i]))
    decreases |lines|
  {
    var n := |lines|;
    if IsHostLine(lines[n - 1]) {
      assert IsLastHostLine(lines, n - 1);
    } else {
      var init := lines[..n - 1];
      LastHostSome(init);
      var i :| IsLastHostLine(init, i) && LastHost(init) == Some(HostValue(init[i]));
      assert init[i] == lines[i];
      assert IsLastHostLine(lines, i);
    }
  }

  /**
   * The meaning of the probe: the last host line's value when it is not
   * empty, and the `Bad output` panic otherwise.
   */
  function Parse(output: string): (r: Result<string>)
    ensures r.Err? ==> r.msg == BAD_OUTPUT
    ensures r.Ok? ==> r.value != [] && '\n' !in r.value
  {
    var lines := SplitLines(output);
    match LastHost(lines)
    case None => Err(BAD_OUTPUT)
    case Some(t) =>
      if t == [] then Err(BAD_OUTPUT)
      else
        assert '\n' !in t by {
          LastHostSome(lines);
          var i :| IsLastHostLine(lines, i) && t == HostValue(lines[i]);
          assert forall c :: c in t ==> c in lines[i];
        }
        Ok(t)
  }

  /**
   * The loop of `modify_cargo` that scans the probe output: `target` starts
   * empty and every host line overwrites it; an empty `target` at the end
   * is the `Bad output` panic.
   */
  method ParseHostTriple(output: string) returns (r: Result<string>)
    ensures r == Parse(output)
  {
    var parts := SplitLines(output);
    var target: string := "";
    for i := 0 to |parts|
      invariant target == LastHost(parts[..i]).GetOr("")
    {
      assert parts[..i + 1][..i] == parts[..i];
      if IsHostLine(parts[i]) {
        target := parts[i][|HOST_PREFIX|..];
      }
    }
    assert parts[..|parts|] == parts;
    if |target| == 0 {
      r := Err(BAD_OUTPUT);
    } else {
      r := Ok(target);
    }
  }

  /** The probe succeeds with `t` exactly when `t` is the non-empty value of the last host line. */
  lemma ParseOk(output: string, t: string)
    ensures Parse(output) == Ok(t) <==>
      t != [] && exists i :: IsLastHostLine(SplitLines(output), i) && HostValue(SplitLines(output)[i]) == t
  {
    var lines := SplitLines(output);
    if Parse(output) == Ok(t) {
      assert t != [] && LastHost(lines) == Some(t);
      LastHostSome(lines);
      var i :| IsLastHostLine(lines, i) && LastHost(lines) == Some(HostValue(lines[i]));
      assert IsLastHostLine(SplitLines(output), i) && HostValue(SplitLines(output)[i]) == t;
    } else if t != [] && exists i :: IsLastHostLine(lines, i) && HostValue(lines[i]) == t {
      var i :| IsLastHostLine(lines, i) && HostValue(lines[i]) == t;
      LastHostAt(lines, i);
      assert false;
    }
  }

  /** Without any line that begins with "host: " the probe panics. */
  lemma ParseWithoutHostLine(output: string)
    requires forall i :: 0 <= i < |SplitLines(output)| ==> !IsHostLine(SplitLines(output)[i])
    ensures Parse(output) == Err(BAD_OUTPUT)
  {
    LastHostNone(SplitLines(output));
  }

  /**
   * A last host line with nothing after the key makes the probe panic, even
   * when an earlier host line carried a triple.
   */
  lemma ParseEmptyLastHost(output: string, i: int)
    requires IsLastHostLine(SplitLines(output), i)
    requires SplitLines(output)[i] == HOST_PREFIX
    ensures Parse(output) == Err(BAD_OUTPUT)
  {
    LastHostAt(SplitLines(output), i);
  }

  /** On text built from lines, the probe yields the value of the last host line, if not empty. */
  lemma ParseJoinedLines(lines: seq<string>, i: int)
    requires forall k :: 0 <= k < |lines| ==> '\n' !in lines[k]
    requires IsLastHostLine(lines, i) && HostValue(lines[i]) != []
    ensures Parse(JoinLines(lines)) == Ok(HostValue(lines[i]))
  {
    SplitJoinLines(lines);
    LastHostAt(lines, i);
  }

  /** A typical `rustc -vV` report yields the triple on its `host` line. */
  lemma ParseRustcReport(triple: string)
    requires triple != [] && '\n' !in triple
    ensures Parse(JoinLines(["binary: rustc", HOST_PREFIX + triple, "release: 1.80.0", ""])) == Ok(triple)
  {
    var lines := ["binary: rustc", HOST_PREFIX + triple, "release: 1.80.0", ""];
    assert (HOST_PREFIX + triple)[..|HOST_PREFIX|] == HOST_PREFIX;
    assert lines[2][0] != HOST_PREFIX[0];
    assert IsLastHostLine(lines, 1);
    assert HostValue(lines[1]) == triple;
    ParseJoinedLines(lines, 1);
  }

  /** "host: " in the middle of a line is not a host line: the earlier triple stays. */
  lemma ParseKeyInsideLine(triple: string, other: string)
    requires triple != [] && '\n' !in triple && '\n' !in other
    ensures Parse(JoinLines([HOST_PREFIX + triple, "commit-" + HOST_PREFIX + other, ""])) == Ok(triple)
  {
    var lines := [HOST_PREFIX + triple, "commit-" + HOST_PREFIX + other, ""];
    assert (HOST_PREFIX + triple)[..|HOST_PREFIX|] == HOST_PREFIX;
    assert lines[1][0] != HOST_PREFIX[0];
    assert IsLastHostLine(lines, 0);
    assert HostValue(lines[0]) == triple;
    ParseJoinedLines(lines, 0);
  }
}
