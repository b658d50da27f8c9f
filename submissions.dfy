/** The string handling of the autograder runners: reading a student's name
    and university id (uvid) from the "First Last (uvid)" directory of a
    submission, commenting out a trailing `main()` call in the submitted
    code, and the "<uvid>_<Assignment>.py" file names the uvid is later read
    back from. */
module Submissions {
  import opened Wrappers
  import opened Text

  /** The characters Python's `str.isspace` accepts, which `strip()`
      removes. */
  predicate IsPythonSpace(c: char)
  {
    || c == ' ' || '\t' <= c <= '\r' || '\U{1C}' <= c <= '\U{1F}'
    || c == '\U{85}' || c == '\U{A0}' || c == '\U{1680}' || '\U{2000}' <= c <= '\U{200A}'
    || c == '\U{2028}' || c == '\U{2029}' || c == '\U{202F}' || c == '\U{205F}' || c == '\U{3000}'
  }

  /** The characters `strip(" )")` removes. */
  predicate IsUvidEdge(c: char)
  {
    c == ' ' || c == ')'
  }

  /** Neither end of s is a character p strips. */
  predicate Stripped(s: string, p: char -> bool)
  {
    s != [] ==> !p(s[0]) && !p(s[|s| - 1])
  }

  /** Python's `lstrip` for the characters p accepts. */
  function LStrip(s: string, p: char -> bool): (r: string)
    ensures |r| <= |s| && r == s[|s| - |r|..]
    ensures forall i :: 0 <= i < |s| - |r| ==> p(s[i])
    ensures r != [] ==> !p(r[0])
    decreases |s|
  {
    if s != [] && p(s[0]) then LStrip(s[1..], p) else s
  }

  /** Python's `rstrip` for the characters p accepts. */
  function RStrip(s: string, p: char -> bool): (r: string)
    ensures |r| <= |s| && r == s[..|r|]
    ensures forall i :: |r| <= i < |s| ==> p(s[i])
    ensures r != [] ==> !p(r[|r| - 1])
    decreases |s|
  {
    if s != [] && p(s[|s| - 1]) then RStrip(s[..|s| - 1], p) else s
  }

  /** Python's `strip`: both ends. What remains neither starts nor ends
      with a stripped character. */
  function Strip(s: string, p: char -> bool): (r: string)
    ensures |r| <= |s| && Stripped(r, p)
  {
    var l := LStrip(s, p);
    var r := RStrip(l, p);
    assert r != [] ==> r[0] == l[0];
    r
  }

  /** Strip removes only characters p accepts, and only from the two ends:
      s is a run of them, the stripped text, and another run. */
  lemma StripRemovesEnds(s: string, p: char -> bool) returns (a: string, b: string)
    ensures s == a + Strip(s, p) + b
    ensures forall k :: 0 <= k < |a| ==> p(a[k])
    ensures forall k :: 0 <= k < |b| ==> p(b[k])
  {
    var l := LStrip(s, p);
    var r := RStrip(l, p);
    assert Strip(s, p) == r;
    a, b := EndRuns(s, l, r, p);
  }

  /** A prefix r of a suffix l of s splits s into what precedes l, r, and
      what follows r in l. */
  lemma EndRuns(s: string, l: string, r: string, p: char -> bool) returns (a: string, b: string)
    requires |l| <= |s| && l == s[|s| - |l|..]
    requires forall k :: 0 <= k < |s| - |l| ==> p(s[k])
    requires |r| <= |l| && r == l[..|r|]
    requires forall k :: |r| <= k < |l| ==> p(l[k])
    ensures s == a + r + b
    ensures forall k :: 0 <= k < |a| ==> p(a[k])
    ensures forall k :: 0 <= k < |b| ==> p(b[k])
  {
    a := s[..|s| - |l|];
    b := l[|r|..];
    assert l == r + b;
    assert s == a + l;
  }

  /** Stripping a text made of a run of stripped characters, a middle that
      neither starts nor ends with one, and another run gives the middle. */
  lemma StripFrame(a: string, m: string, b: string, p: char -> bool)
    requires forall i :: 0 <= i < |a| ==> p(a[i])
    requires forall i :: 0 <= i < |b| ==> p(b[i])
    requires Stripped(m, p)
    ensures Strip(a + m + b, p) == m
  {
    if m == [] {
      assert a + m + b == a + b + [];
      assert forall i :: 0 <= i < |a + b| ==> p((a + b)[i]);
      LStripSkips(a + b, [], p);
    } else {
      assert a + m + b == a + (m + b);
      LStripSkips(a, m + b, p);
      RStripSkips(m, b, p);
    }
  }

  /** lstrip removes a leading run of stripped characters and stops at the
      first other one. */
  lemma {:induction false} LStripSkips(a: string, rest: string, p: char -> bool)
    requires forall i :: 0 <= i < |a| ==> p(a[i])
    requires rest != [] ==> !p(rest[0])
    ensures LStrip(a + rest, p) == rest
    decreases |a|
  {
    if a == [] {
      assert a + rest == rest;
    } else {
      assert (a + rest)[1..] == a[1..] + rest;
      LStripSkips(a[1..], rest, p);
    }
  }

  /** rstrip removes a trailing run of stripped characters and stops at the
      last other one. */
  lemma {:induction false} RStripSkips(rest: string, b: string, p: char -> bool)
    requires forall i :: 0 <= i < |b| ==> p(b[i])
    requires rest != [] ==> !p(rest[|rest| - 1])
    ensures RStrip(rest + b, p) == rest
    decreases |b|
  {
    if b == [] {
      assert rest + b == rest;
    } else {
      assert (rest + b)[..|rest + b| - 1] == rest + b[..|b| - 1];
      RStripSkips(rest, b[..|b| - 1], p);
    }
  }

  /** Stripping twice is stripping once. */
  lemma StripIdempotent(s: string, p: char -> bool)
    ensures Strip(Strip(s, p), p) == Strip(s, p)
  {
    StripFrame([], Strip(s, p), [], p);
    assert [] + Strip(s, p) + [] == Strip(s, p);
  }

  /** Stripping adds no character. */
  lemma {:induction false} StripLacks(s: string, p: char -> bool, c: char)
    requires c !in s
    ensures c !in Strip(s, p)
  {
    var l := LStrip(s, p);
    SliceLacks(s, |s| - |l|, |s|, c);
    SliceLacks(l, 0, |RStrip(l, p)|, c);
  }

  /** A slice holds no character its text lacks. */
  lemma {:induction false} SliceLacks(s: string, i: int, j: int, c: char)
    requires 0 <= i <= j <= |s| && c !in s
    ensures c !in s[i..j] && (i == 0 ==> c !in s[..j]) && (j == |s| ==> c !in s[i..])
  {
    assert forall k :: i <= k < j ==> s[i..j][k - i] == s[k];
  }

  /** The last position of c in s. */
  function LastIndexOf(s: string, c: char): (k: int)
    requires c in s
    ensures 0 <= k < |s| && s[k] == c
    ensures forall j :: k < j < |s| ==> s[j] != c
    decreases |s|
  {
    if s[|s| - 1] == c then |s| - 1 else LastIndexOf(s[..|s| - 1], c)
  }

  /** `s.rsplit(c, 1)` when c occurs in s: the text before the last c and
      the text after it. */
  function RSplitOnce(s: string, c: char): (r: (string, string))
    requires c in s
    ensures s == r.0 + [c] + r.1 && c !in r.1
  {
    var k := LastIndexOf(s, c);
    assert s == s[..k] + [c] + s[k + 1..];
    (s[..k], s[k + 1..])
  }

  /** A c with no c after it is the last c. */
  lemma LastIndexUnique(s: string, c: char, k: int)
    requires 0 <= k < |s| && s[k] == c
    requires forall j :: k < j < |s| ==> s[j] != c
    ensures c in s && LastIndexOf(s, c) == k
  {
  }

  /** `rsplit` undoes joining two texts with c when the second holds no
      c. */
  lemma RSplitJoined(a: string, c: char, b: string)
    requires c !in b
    ensures c in a + [c] + b && RSplitOnce(a + [c] + b, c) == (a, b)
  {
    var s := a + [c] + b;
    assert s[|a|] == c;
    assert forall j :: |a| < j < |s| ==> s[j] == b[j - |a| - 1];
    LastIndexUnique(s, c, |a|);
    assert s[..|a|] == a && s[|a| + 1..] == b;
  }

  /** `s.split(c)` for a single character c: the pieces between the
      occurrences of c, at least one. */
  function Split(s: string, c: char): (pieces: seq<string>)
    ensures |pieces| >= 1
    ensures forall i :: 0 <= i < |pieces| ==> c !in pieces[i]
    decreases |s|
  {
    if c !in s then [s]
    else
      var (before, after) := RSplitOnce(s, c);
      Split(before, c) + [after]
  }

  /** Joining the pieces of a split with the separator gives the text
      back. */
  lemma {:induction false} JoinSplit(s: string, c: char)
    ensures Join(Split(s, c), [c]) == s
    decreases |s|
  {
    if c in s {
      var (before, after) := RSplitOnce(s, c);
      var init := Split(before, c);
      JoinSplit(before, c);
      var pieces := init + [after];
      assert pieces[..|pieces| - 1] == init;
    }
  }

  /** Splitting a join of pieces free of the separator gives the pieces
      back. */
  lemma {:induction false} SplitJoin(pieces: seq<string>, c: char)
    requires |pieces| >= 1
    requires forall i :: 0 <= i < |pieces| ==> c !in pieces[i]
    ensures Split(Join(pieces, [c]), c) == pieces
    decreases |pieces|
  {
    var n := |pieces|;
    if n == 1 {
    } else {
      var init := pieces[..n - 1];
      var j := Join(init, [c]);
      var s := Join(pieces, [c]);
      var last := pieces[n - 1];
      assert s == j + [c] + last;
      RSplitJoined(j, c, last);
      SplitJoin(init, c);
      assert pieces == init + [pieces[n - 1]];
    }
  }

  /** `s.split(c)[0]`: the longest prefix of s without c; when c occurs, it
      is followed by c. */
  lemma {:induction false} SplitFirst(s: string, c: char)
    ensures var f := Split(s, c)[0];
            && |f| <= |s| && f == s[..|f|] && c !in f
            && (c in s ==> |f| < |s| && s[|f|] == c)
    decreases |s|
  {
    if c in s {
      var (before, after) := RSplitOnce(s, c);
      SplitFirst(before, c);
      assert Split(s, c)[0] == Split(before, c)[0];
      var f := Split(before, c)[0];
      if c !in before {
        assert s[|before|] == c;
      } else {
        assert s[|f|] == before[|f|];
      }
    }
  }

  /** Why a submission directory could not be read. */
  datatype ParseError =
    | PathTooShort  // fewer than two path parts
    | NoUvid        // the student directory lacks '(' or ')'

  /** `parse_student_info_from_path`, on the path's parts: the uvid and the
      name from the second-to-last part, "First Last (uvid)". */
  function ParseStudentInfo(parts: seq<string>): (r: Result<(string, string), ParseError>)
    ensures |parts| < 2 <==> r == Err(PathTooShort)
    ensures |parts| >= 2 ==>
              (r == Err(NoUvid) <==> '(' !in parts[|parts| - 2] || ')' !in parts[|parts| - 2])
    ensures r.Ok? ==>
              var (uvid, name) := r.value;
              && '(' !in uvid
              && Stripped(uvid, IsUvidEdge)
              && Stripped(name, IsPythonSpace)
  {
    if |parts| < 2 then Err(PathTooShort)
    else
      var studentDir := parts[|parts| - 2];
      if '(' !in studentDir || ')' !in studentDir then Err(NoUvid)
      else
        var (namePart, uvidPart) := RSplitOnce(studentDir, '(');
        var name := Strip(namePart, IsPythonSpace);
        var uvid := Strip(uvidPart, IsUvidEdge);
        StripLacks(uvidPart, IsUvidEdge, '(');
        Ok((uvid, name))
  }

  /** A directory named "<name> (<uvid>)" reads back as that name and uvid,
      whatever the parts before it and the file after it, provided the name
      has no surrounding whitespace and the uvid holds no '(' and neither
      starts nor ends with ' ' or ')'. Together with the contract of
      `ParseStudentInfo`, every name and uvid it returns are of this kind,
      so the names it accepts are exactly the ones it can give back. */
  lemma ParseRoundTrip(prefix: seq<string>, name: string, uvid: string, file: string)
    requires Stripped(name, IsPythonSpace)
    requires '(' !in uvid && Stripped(uvid, IsUvidEdge)
    ensures ParseStudentInfo(prefix + [name + " (" + uvid + ")", file]) == Ok((uvid, name))
  {
    var parts := prefix + [name + " (" + uvid + ")", file];
    assert parts[|parts| - 2] == name + " (" + uvid + ")";
    SplitAndStrip(name, uvid, IsPythonSpace, IsUvidEdge);
  }

  /** The core of `ParseRoundTrip`, for any characters p stripped from the
      name and q from the uvid, as long as p strips the blank before the
      '(' and q the ')'. */
  lemma SplitAndStrip(name: string, uvid: string, p: char -> bool, q: char -> bool)
    requires p(' ') && q(')')
    requires Stripped(name, p)
    requires '(' !in uvid && Stripped(uvid, q)
    ensures var dir := name + " (" + uvid + ")";
            && '(' in dir && ')' in dir
            && Strip(RSplitOnce(dir, '(').0, p) == name
            && Strip(RSplitOnce(dir, '(').1, q) == uvid
  {
    var dir := name + " (" + uvid + ")";
    assert dir == (name + " ") + ['('] + (uvid + ")");
    assert '(' !in uvid + ")";
    RSplitJoined(name + " ", '(', uvid + ")");
    assert [] + name + " " == name + " " && [] + uvid + ")" == uvid + ")";
    StripFrame([], name, " ", p);
    StripFrame([], uvid, ")", q);
  }

  /** What replaces a trailing `main()` line. */
  const DisabledMain := "## main() # commented main()"

  /** The in-place rewrite of the last line: `DisabledMain` replaces it
      when it starts with "main()"; every other line stays. */
  function DisableLastLine(lines: seq<string>): (r: seq<string>)
    requires |lines| >= 1
    ensures |r| == |lines| && r[..|r| - 1] == lines[..|lines| - 1]
    ensures r[|r| - 1] == if StartsWith(lines[|lines| - 1], "main()") then DisabledMain else lines[|lines| - 1]
  {
    var n := |lines|;
    if StartsWith(lines[n - 1], "main()") then lines[n - 1 := DisabledMain] else lines
  }

  /** The rewrite of submitted code: strip the text, split it into lines,
      rewrite the last line and join the lines again. */
  function DisableMain(code: string): (r: string)
  {
    Join(DisableLastLine(Split(Strip(code, IsPythonSpace), '\n')), "\n")
  }

  /** The lines of the rewritten code are the lines of the stripped code
      with only the last one rewritten; code whose last line does not start
      with "main()" comes back stripped and otherwise unchanged. */
  lemma DisableMainSpec(code: string)
    ensures Split(DisableMain(code), '\n') == DisableLastLine(Split(Strip(code, IsPythonSpace), '\n'))
    ensures var lines := Split(Strip(code, IsPythonSpace), '\n');
            !StartsWith(lines[|lines| - 1], "main()") ==> DisableMain(code) == Strip(code, IsPythonSpace)
  {
    RewriteLines(Strip(code, IsPythonSpace));
  }

  /** Rewriting the last line of any text and joining the lines again gives
      a text whose lines are the rewritten ones. */
  lemma RewriteLines(text: string)
    ensures var lines := Split(text, '\n');
            && Split(Join(DisableLastLine(lines), "\n"), '\n') == DisableLastLine(lines)
            && (!StartsWith(lines[|lines| - 1], "main()") ==> Join(DisableLastLine(lines), "\n") == text)
  {
    var lines := Split(text, '\n');
    var rewritten := DisableLastLine(lines);
    var n := |lines|;
    assert "\n" == ['\n'];
    forall i | 0 <= i < n
      ensures '\n' !in rewritten[i]
    {
      if i < n - 1 {
        assert rewritten[i] == rewritten[..n - 1][i] == lines[..n - 1][i];
      }
    }
    SplitJoin(rewritten, '\n');
    if !StartsWith(lines[n - 1], "main()") {
      assert rewritten == lines;
      JoinSplit(text, '\n');
    }
  }

  /** The assignment names in the destination file names. */
  const MyListAssignment := "MyList"
  const RectangleAssignment := "Rectangle"

  /** The destination file name "<uvid>_<assignment>.py". */
  function DestFileName(uvid: string, assignment: string): (f: string)
  {
    uvid + "_" + assignment + ".py"
  }

  /** `Path.stem`: the file name without its last suffix; a name whose only
      dot is its first or last character has no suffix. */
  function Stem(fileName: string): (stem: string)
    ensures |stem| <= |fileName| && stem == fileName[..|stem|]
  {
    if '.' in fileName && 0 < LastIndexOf(fileName, '.') < |fileName| - 1
    then fileName[..LastIndexOf(fileName, '.')]
    else fileName
  }

  /** `stem.split('_')[0]`: the uvid read back from a file's stem. */
  function UvidFromStem(stem: string): (uvid: string)
  {
    Split(stem, '_')[0]
  }

  /** The uvid read back from a destination file name is the uvid it was
      written from exactly when that uvid holds no '_'. */
  lemma FileNameRoundTrip(uvid: string, assignment: string)
    ensures UvidFromStem(Stem(DestFileName(uvid, assignment))) == uvid <==> '_' !in uvid
  {
    StemOfDestFileName(uvid, assignment);
    if '_' in uvid {
      FirstPieceCutShort(uvid, assignment);
    } else {
      FirstPieceIsUvid(uvid, assignment);
    }
  }

  /** The stem of a destination file name drops exactly the ".py". */
  lemma StemOfDestFileName(uvid: string, assignment: string)
    ensures Stem(DestFileName(uvid, assignment)) == uvid + "_" + assignment
  {
    var stem := uvid + "_" + assignment;
    var f := DestFileName(uvid, assignment);
    assert f == stem + ".py";
    assert forall k :: |stem| < k < |f| ==> f[k] == ".py"[k - |stem|];
    LastIndexUnique(f, '.', |stem|);
  }

  /** A '_'-free uvid is the first piece of "<uvid>_<rest>". */
  lemma FirstPieceIsUvid(uvid: string, rest: string)
    requires '_' !in uvid
    ensures Split(uvid + "_" + rest, '_')[0] == uvid
  {
    var stem := uvid + "_" + rest;
    SplitFirst(stem, '_');
    assert stem[|uvid|] == '_';
    var first := Split(stem, '_')[0];
    assert forall k :: 0 <= k < |uvid| ==> stem[k] == uvid[k];
  }

  /** A uvid holding '_' is cut short by the split. */
  lemma FirstPieceCutShort(uvid: string, rest: string)
    requires '_' in uvid
    ensures |Split(uvid + "_" + rest, '_')[0]| < |uvid|
  {
    var stem := uvid + "_" + rest;
    SplitFirst(stem, '_');
    var first := Split(stem, '_')[0];
    var j :| 0 <= j < |uvid| && uvid[j] == '_';
    assert stem[j] == '_';
    assert forall k :: 0 <= k < |first| ==> stem[k] == first[k] != '_';
  }

  /** The MyList and Rectangle runners both recover a '_'-free uvid. */
  lemma RunnerFileNames(uvid: string)
    requires '_' !in uvid
    ensures UvidFromStem(Stem(DestFileName(uvid, MyListAssignment))) == uvid
    ensures UvidFromStem(Stem(DestFileName(uvid, RectangleAssignment))) == uvid
  {
    FileNameRoundTrip(uvid, MyListAssignment);
    FileNameRoundTrip(uvid, RectangleAssignment);
  }
}
