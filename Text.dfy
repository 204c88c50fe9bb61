/** Python `str` operations used by the rule-mining scripts, on `seq<char>`. */
module Text {

  type String = seq<char>

  datatype Option<T> = None | Some(value: T)

  /** Number of occurrences of `c` in `s` (`s.count(c)`). */
  function Count(s: String, c: char): nat
  {
    if s == [] then 0 else (if s[0] == c then 1 else 0) + Count(s[1..], c)
  }

  lemma {:induction false} CountConcat(a: String, b: String, c: char)
    ensures Count(a + b, c) == Count(a, c) + Count(b, c)
  {
    if a != [] {
      assert (a + b)[0] == a[0] && (a + b)[1..] == a[1..] + b;
      CountConcat(a[1..], b, c);
    } else {
      assert a + b == b;
    }
  }

  lemma {:induction false} CountBound(s: String, c: char)
    ensures Count(s, c) <= |s|
    ensures c !in s ==> Count(s, c) == 0
    ensures c in s ==> Count(s, c) > 0
  {
    if s != [] {
      CountBound(s[1..], c);
      assert c in s ==> s[0] == c || c in s[1..];
    }
  }

  /** Characters for which Python's `str.isspace()` holds; `str.strip()` removes these. */
  predicate IsSpace(c: char)
  {
    c == '\t' || c == '\n' || c == '\U{b}' || c == '\U{c}' || c == '\r'
    || ('\U{1c}' <= c <= '\U{1f}') || c == ' ' || c == '\U{85}' || c == '\U{a0}'
    || c == '\U{1680}' || ('\U{2000}' <= c <= '\U{200a}') || c == '\U{2028}'
    || c == '\U{2029}' || c == '\U{202f}' || c == '\U{205f}' || c == '\U{3000}'
  }

  /** Characters at which Python's `str.splitlines()` ends a line (`\r\n` counts as one boundary). */
  predicate IsLineBoundary(c: char)
  {
    c == '\n' || c == '\r' || c == '\U{b}' || c == '\U{c}' || c == '\U{1c}' || c == '\U{1d}'
    || c == '\U{1e}' || c == '\U{85}' || c == '\U{2028}' || c == '\U{2029}'
  }

  lemma BoundaryIsSpace(c: char)
    ensures IsLineBoundary(c) ==> IsSpace(c)
  {
  }

  predicate NoBoundary(s: String)
  {
    forall i :: 0 <= i < |s| ==> !IsLineBoundary(s[i])
  }

  function StripLeft(s: String): (r: String)
    ensures |r| <= |s| && r == s[|s| - |r|..]
    ensures r != [] ==> !IsSpace(r[0])
    ensures forall i :: 0 <= i < |s| - |r| ==> IsSpace(s[i])
  {
    if s != [] && IsSpace(s[0]) then StripLeft(s[1..]) else s
  }

  function StripRight(s: String): (r: String)
    ensures |r| <= |s| && r == s[..|r|]
    ensures r != [] ==> !IsSpace(r[|r| - 1])
    ensures forall i :: |r| <= i < |s| ==> IsSpace(s[i])
  {
    if s != [] && IsSpace(s[|s| - 1]) then StripRight(s[..|s| - 1]) else s
  }

  /** `r` is `s` with `a` characters of whitespace cut from the front and only whitespace cut from the back. */
  predicate TrimmedAt(s: String, r: String, a: int)
  {
    0 <= a <= |s| - |r| && r == s[a..a + |r|]
    && (forall i :: 0 <= i < a ==> IsSpace(s[i]))
    && (forall i :: a + |r| <= i < |s| ==> IsSpace(s[i]))
  }

  /** `s.strip()`: the longest infix of `s` that neither starts nor ends with whitespace. */
  function Strip(s: String): (r: String)
    ensures r != [] ==> !IsSpace(r[0]) && !IsSpace(r[|r| - 1])
    ensures r == [] <==> forall i :: 0 <= i < |s| ==> IsSpace(s[i])
    ensures exists a :: TrimmedAt(s, r, a)
  {
    var l := StripLeft(s);
    var r := StripRight(l);
    StripInfix(s, l, r);
    r
  }

  /** What `StripLeft` and then `StripRight` remove is whitespace, from the two ends. */
  lemma StripInfix(s: String, l: String, r: String)
    requires |l| <= |s| && l == s[|s| - |l|..]
    requires forall i :: 0 <= i < |s| - |l| ==> IsSpace(s[i])
    requires |r| <= |l| && r == l[..|r|]
    requires forall i :: |r| <= i < |l| ==> IsSpace(l[i])
    ensures TrimmedAt(s, r, |s| - |l|)
  {
    var a := |s| - |l|;
    assert r == s[a..a + |r|];
    forall i | a + |r| <= i < |s|
      ensures IsSpace(s[i])
    {
      assert s[i] == l[i - a];
    }
  }

  /** A string that neither starts nor ends with whitespace is its own `strip()`. */
  lemma StripNoop(s: String)
    requires s != [] ==> !IsSpace(s[0]) && !IsSpace(s[|s| - 1])
    ensures Strip(s) == s
  {
  }

  lemma {:induction false} StripRightSpaces(s: String, w: String)
    requires s != [] && !IsSpace(s[|s| - 1]) && forall i :: 0 <= i < |w| ==> IsSpace(w[i])
    ensures StripRight(s + w) == s
    decreases |w|
  {
    var t := s + w;
    if w == [] {
      assert t == s;
    } else {
      assert t[..|t| - 1] == s + w[..|w| - 1];
      assert IsSpace(t[|t| - 1]);
      StripRightSpaces(s, w[..|w| - 1]);
    }
  }

  /** Whitespace after a text that neither starts nor ends with whitespace is all that `strip` removes. */
  lemma StripTrailing(s: String, w: String)
    requires s != [] && !IsSpace(s[0]) && !IsSpace(s[|s| - 1])
    requires forall i :: 0 <= i < |w| ==> IsSpace(w[i])
    ensures Strip(s + w) == s
  {
    assert (s + w)[0] == s[0];
    assert StripLeft(s + w) == s + w;
    StripRightSpaces(s, w);
  }

  /** Stripping keeps a string free of line boundaries. */
  lemma StripNoBoundary(s: String)
    requires NoBoundary(s)
    ensures NoBoundary(Strip(s))
  {
    var l := StripLeft(s);
    assert NoBoundary(l);
  }

  /** Index of the first `c` in `s`, if any (`s.find(c)`). */
  function Find(s: String, c: char): (r: Option<nat>)
    ensures r.None? <==> c !in s
    ensures r.Some? ==> r.value < |s| && s[r.value] == c && c !in s[..r.value]
  {
    if s == [] then None
    else if s[0] == c then Some(0)
    else match Find(s[1..], c)
      case None => None
      case Some(k) => Some(k + 1)
  }

  /** `a, b = s.split(c, 1)`: None where the unpacking raises `ValueError` (no `c` in `s`). */
  function SplitOnce(s: String, c: char): (r: Option<(String, String)>)
    ensures r.None? <==> c !in s
    ensures r.Some? ==> s == r.value.0 + [c] + r.value.1 && c !in r.value.0
  {
    match Find(s, c)
      case None => None
      case Some(k) => Some((s[..k], s[k + 1..]))
  }

  lemma SplitOnceJoin(a: String, b: String, c: char)
    requires c !in a
    ensures SplitOnce(a + [c] + b, c) == Some((a, b))
  {
    var s := a + [c] + b;
    assert s[..|a|] == a && s[|a| + 1..] == b;
    assert s[|a|] == c;
  }

  /** `s.split(c)`: the pieces between occurrences of `c`. */
  function SplitAll(s: String, c: char): (r: seq<String>)
    ensures |r| >= 1
    ensures forall i :: 0 <= i < |r| ==> c !in r[i]
    decreases |s|
  {
    match Find(s, c)
      case None => [s]
      case Some(k) => [s[..k]] + SplitAll(s[k + 1..], c)
  }

  lemma {:induction false} SplitAllCount(s: String, c: char)
    ensures |SplitAll(s, c)| == Count(s, c) + 1
    decreases |s|
  {
    match Find(s, c)
      case None => CountBound(s, c);
      case Some(k) =>
        assert s == s[..k] + [c] + s[k + 1..];
        CountConcat(s[..k] + [c], s[k + 1..], c);
        CountConcat(s[..k], [c], c);
        CountBound(s[..k], c);
        SplitAllCount(s[k + 1..], c);
  }

  lemma SplitAllTwo(a: String, b: String, c: char)
    requires c !in a && c !in b
    ensures SplitAll(a + [c] + b, c) == [a, b]
  {
    var s := a + [c] + b;
    SplitOnceJoin(a, b, c);
    assert Find(s, c) == Some(|a|);
    assert s[|a| + 1..] == b;
  }

  lemma SeqAssoc(p: String, q: String, r: String)
    ensures p + (q + r) == (p + q) + r
  {
  }

  /** A split into exactly two parts: the text is the two parts joined by the one separator. */
  lemma SplitAllPair(s: String, c: char)
    requires |SplitAll(s, c)| == 2
    ensures s == SplitAll(s, c)[0] + [c] + SplitAll(s, c)[1]
  {
    var parts := SplitAll(s, c);
    match Find(s, c)
      case Some(k) =>
        var u := s[k + 1..];
        assert SplitAll(u, c) == [parts[1]];
        assert Find(u, c).None?;
        assert s == s[..k] + [c] + u;
  }

  /** Concatenation of all strings of `parts` (`"".join(parts)`). */
  function Concat(parts: seq<String>): String
  {
    if parts == [] then [] else parts[0] + Concat(parts[1..])
  }

  lemma {:induction false} ConcatAppend(parts: seq<String>, last: String)
    ensures Concat(parts + [last]) == Concat(parts) + last
  {
    if parts != [] {
      assert (parts + [last])[1..] == parts[1..] + [last];
      ConcatAppend(parts[1..], last);
    }
  }

  lemma {:induction false} ConcatJoin(a: seq<String>, b: seq<String>)
    ensures Concat(a + b) == Concat(a) + Concat(b)
  {
    if a != [] {
      assert (a + b)[1..] == a[1..] + b;
      ConcatJoin(a[1..], b);
    } else {
      assert a + b == b;
    }
  }

  /** `sep.join(parts)` for a one-character separator. */
  function Join(parts: seq<String>, sep: char): (r: String)
  {
    if parts == [] then []
    else if |parts| == 1 then parts[0]
    else parts[0] + [sep] + Join(parts[1..], sep)
  }

  lemma {:induction false} JoinAppend(parts: seq<String>, last: String, sep: char)
    requires parts != []
    ensures Join(parts + [last], sep) == Join(parts, sep) + [sep] + last
  {
    if |parts| > 1 {
      assert (parts + [last])[1..] == parts[1..] + [last];
      JoinAppend(parts[1..], last, sep);
    }
  }

  /** `s.replace(c, t)` for a one-character pattern. */
  function ReplaceWith(s: String, c: char, t: String): (r: String)
  {
    if s == [] then [] else (if s[0] == c then t else [s[0]]) + ReplaceWith(s[1..], c, t)
  }

  lemma {:induction false} ReplaceWithConcat(a: String, b: String, c: char, t: String)
    ensures ReplaceWith(a + b, c, t) == ReplaceWith(a, c, t) + ReplaceWith(b, c, t)
  {
    if a != [] {
      assert (a + b)[0] == a[0] && (a + b)[1..] == a[1..] + b;
      ReplaceWithConcat(a[1..], b, c, t);
    } else {
      assert a + b == b;
    }
  }

  lemma {:induction false} ReplaceWithLength(s: String, c: char, t: String)
    ensures |ReplaceWith(s, c, t)| == |s| + Count(s, c) * (|t| - 1)
  {
    if s != [] {
      ReplaceWithLength(s[1..], c, t);
    }
  }

  lemma {:induction false} ReplaceWithAbsent(s: String, c: char, t: String)
    requires c !in s
    ensures ReplaceWith(s, c, t) == s
  {
    if s != [] {
      assert s == [s[0]] + s[1..];
      ReplaceWithAbsent(s[1..], c, t);
    }
  }

  /** After the replacement a character comes either from `t` or from `s`, and is then not `c`. */
  lemma {:induction false} ReplaceWithMembers(s: String, c: char, t: String, d: char)
    requires d in ReplaceWith(s, c, t)
    ensures d in t || (d in s && d != c)
  {
    if s != [] {
      var head := if s[0] == c then t else [s[0]];
      if d !in head {
        ReplaceWithMembers(s[1..], c, t, d);
      }
    }
  }

  function StartsWith(s: String, prefix: String): bool
  {
    |prefix| <= |s| && s[..|prefix|] == prefix
  }

  /** Length of the first line of `s`: the index of its first line boundary, or `|s|`. */
  function LineLength(s: String): (k: nat)
    ensures k <= |s| && NoBoundary(s[..k])
    ensures k < |s| ==> IsLineBoundary(s[k])
  {
    if s == [] || IsLineBoundary(s[0]) then 0
    else
      var k := LineLength(s[1..]);
      assert s[..k + 1] == [s[0]] + s[1..][..k];
      k + 1
  }

  /** Width of the line boundary at the start of `s`: 2 for `\r\n`, 1 otherwise. */
  function BoundaryWidth(s: String): nat
    requires s != []
  {
    if |s| >= 2 && s[0] == '\r' && s[1] == '\n' then 2 else 1
  }

  /** `s.splitlines()`: lines without their terminators; no empty last line for a trailing boundary. */
  function SplitLines(s: String): (r: seq<String>)
    ensures forall i :: 0 <= i < |r| ==> NoBoundary(r[i])
    decreases |s|
  {
    if s == [] then []
    else
      var k := LineLength(s);
      if k == |s| then [s]
      else [s[..k]] + SplitLines(s[k + BoundaryWidth(s[k..])..])
  }

  /** Lines each ended by `\n`, as a file holds them. */
  function Terminated(lines: seq<String>): String
  {
    Concat(seq(|lines|, i requires 0 <= i < |lines| => lines[i] + "\n"))
  }

  lemma TerminatedOne(line: String)
    ensures Terminated([line]) == line + "\n"
  {
    var ended := seq(1, i requires 0 <= i < 1 => [line][i] + "\n");
    assert ended == [line + "\n"];
    assert ended[1..] == [];
    assert Concat(ended) == ended[0] + Concat(ended[1..]);
  }

  /** Appending a line appends it and its `\n`. */
  lemma TerminatedSnoc(lines: seq<String>, line: String)
    ensures Terminated(lines + [line]) == Terminated(lines) + line + "\n"
  {
    var all := lines + [line];
    var before := seq(|lines|, i requires 0 <= i < |lines| => lines[i] + "\n");
    assert seq(|all|, i requires 0 <= i < |all| => all[i] + "\n") == before + [line + "\n"];
    ConcatAppend(before, line + "\n");
  }

  /** A character other than `\n` that no line holds does not occur in the terminated text. */
  lemma {:induction false} TerminatedExcludes(lines: seq<String>, c: char)
    requires c != '\n' && forall i :: 0 <= i < |lines| ==> c !in lines[i]
    ensures c !in Terminated(lines)
  {
    if lines != [] {
      var init := lines[..|lines| - 1];
      TerminatedExcludes(init, c);
      assert lines == init + [lines[|lines| - 1]];
      TerminatedSnoc(init, lines[|lines| - 1]);
    }
  }

  /** Splitting text made of boundary-free lines, each ended by `\n`, gives the lines back. */
  lemma {:induction false} SplitLinesTerminated(lines: seq<String>)
    requires forall i :: 0 <= i < |lines| ==> NoBoundary(lines[i])
    ensures SplitLines(Terminated(lines)) == lines
  {
    if lines != [] {
      var s := Terminated(lines);
      var rest := Terminated(lines[1..]);
      assert seq(|lines[1..]|, i requires 0 <= i < |lines[1..]| => lines[1..][i] + "\n")
        == seq(|lines|, i requires 0 <= i < |lines| => lines[i] + "\n")[1..];
      assert s == lines[0] + "\n" + rest;
      var k := |lines[0]|;
      assert s[..k] == lines[0];
      assert s[k] == '\n';
      LineLengthAt(s, k);
      assert s[k..] == "\n" + rest;
      assert s[k + 1..] == rest;
      SplitLinesTerminated(lines[1..]);
    }
  }

  /** Non-empty boundary-free lines joined by `\n` split back into the same lines. */
  lemma {:induction false} SplitLinesJoin(lines: seq<String>)
    requires forall i :: 0 <= i < |lines| ==> NoBoundary(lines[i]) && lines[i] != []
    ensures SplitLines(Join(lines, '\n')) == lines
  {
    if |lines| == 1 {
      assert LineLength(lines[0]) == |lines[0]|;
    } else if |lines| > 1 {
      var rest := Join(lines[1..], '\n');
      var s := Join(lines, '\n');
      assert s == lines[0] + "\n" + rest;
      var k := |lines[0]|;
      assert s[..k] == lines[0] && s[k] == '\n';
      LineLengthAt(s, k);
      assert s[k..][0] == '\n';
      assert s[k + 1..] == rest;
      SplitLinesJoin(lines[1..]);
      assert rest != [] by {
        JoinNonEmpty(lines[1..]);
      }
    }
  }

  lemma JoinNonEmpty(lines: seq<String>)
    requires lines != [] && lines[0] != []
    ensures Join(lines, '\n') != []
  {
  }

  lemma LineLengthAt(s: String, k: nat)
    requires k < |s| && NoBoundary(s[..k]) && IsLineBoundary(s[k])
    ensures LineLength(s) == k
  {
  }

  /** One step of `SplitLines` at a single-character boundary at position `k`. */
  lemma SplitLinesAt(s: String, k: nat)
    requires k < |s| && NoBoundary(s[..k]) && IsLineBoundary(s[k]) && s[k] != '\r'
    ensures SplitLines(s) == [s[..k]] + SplitLines(s[k + 1..])
  {
    LineLengthAt(s, k);
  }

  /** Lines as `for line in f` yields them from text already in universal-newline form: each keeps its `\n`. */
  function FileLines(s: String): (r: seq<String>)
    ensures Concat(r) == s
    ensures forall i :: 0 <= i < |r| ==> r[i] != [] && '\n' !in r[i][..|r[i]| - 1]
    decreases |s|
  {
    if s == [] then []
    else match Find(s, '\n')
      case None => [s]
      case Some(k) =>
        assert s == s[..k + 1] + s[k + 1..];
        assert s[..k + 1][..k] == s[..k];
        [s[..k + 1]] + FileLines(s[k + 1..])
  }

  lemma {:induction false} FileLinesTerminated(lines: seq<String>)
    requires forall i :: 0 <= i < |lines| ==> '\n' !in lines[i]
    ensures FileLines(Terminated(lines)) == seq(|lines|, i requires 0 <= i < |lines| => lines[i] + "\n")
  {
    if lines != [] {
      var s := Terminated(lines);
      var rest := Terminated(lines[1..]);
      assert seq(|lines[1..]|, i requires 0 <= i < |lines[1..]| => lines[1..][i] + "\n")
        == seq(|lines|, i requires 0 <= i < |lines| => lines[i] + "\n")[1..];
      assert s == lines[0] + "\n" + rest;
      var k := |lines[0]|;
      assert s[..k] == lines[0] && s[k] == '\n';
      assert Find(s, '\n') == Some(k);
      assert s[..k + 1] == lines[0] + "\n";
      assert s[k + 1..] == rest;
      FileLinesTerminated(lines[1..]);
    }
  }

  /** Lexicographic order by code point, as Python compares `str` values. */
  predicate LexLess(a: String, b: String)
    decreases |a|
  {
    if a == [] then b != []
    else if b == [] then false
    else if a[0] != b[0] then a[0] < b[0]
    else LexLess(a[1..], b[1..])
  }

  lemma {:induction false} LexIrreflexive(a: String)
    ensures !LexLess(a, a)
  {
    if a != [] {
      LexIrreflexive(a[1..]);
    }
  }

  lemma {:induction false} LexTotal(a: String, b: String)
    requires a != b
    ensures LexLess(a, b) || LexLess(b, a)
    decreases |a|
  {
    if a != [] && b != [] && a[0] == b[0] {
      assert a == [a[0]] + a[1..] && b == [b[0]] + b[1..];
      LexTotal(a[1..], b[1..]);
    }
  }

  lemma {:induction false} LexTransitive(a: String, b: String, c: String)
    requires LexLess(a, b) && LexLess(b, c)
    ensures LexLess(a, c)
    decreases |a|
  {
    if a != [] && a[0] == b[0] && b[0] == c[0] {
      LexTransitive(a[1..], b[1..], c[1..]);
    }
  }
}
