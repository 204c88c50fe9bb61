/**
 * The sample collector (tools/ml_optimizer/collect.py, `main`): every `*.bf` file of a directory,
 * in sorted name order, becomes one dataset line `raw<TAB>normalize(raw)` in which the newlines of
 * the raw program are replaced by spaces. The directory is given as its listing; the output is the
 * complete new content of the dataset file.
 */
module Collector {
  import opened Text
  import opened Normalizer

  /** A directory entry: its name and the text stored in it. */
  datatype File = File(name: String, content: String)

  function EndsWith(s: String, suffix: String): bool
  {
    |suffix| <= |s| && s[|s| - |suffix|..] == suffix
  }

  /** The entries the `*.bf` pattern selects, in listing order. */
  function Programs(listing: seq<File>): (r: seq<File>)
    ensures forall k :: 0 <= k < |r| ==> EndsWith(r[k].name, ".bf")
    ensures forall f :: f in r <==> f in listing && EndsWith(f.name, ".bf")
  {
    if listing == [] then []
    else (if EndsWith(listing[0].name, ".bf") then [listing[0]] else []) + Programs(listing[1..])
  }

  lemma {:induction false} ProgramsCount(listing: seq<File>, f: File)
    ensures multiset(Programs(listing))[f] == if EndsWith(f.name, ".bf") then multiset(listing)[f] else 0
  {
    if listing != [] {
      assert listing == [listing[0]] + listing[1..];
      ProgramsCount(listing[1..], f);
    }
  }

  /** No two entries of a directory listing share a name. */
  predicate DistinctNames(files: seq<File>)
  {
    forall i, j :: 0 <= i < j < |files| ==> files[i].name != files[j].name
  }

  lemma {:induction false} ProgramsDistinct(listing: seq<File>)
    requires DistinctNames(listing)
    ensures DistinctNames(Programs(listing))
  {
    if listing != [] {
      var rest := Programs(listing[1..]);
      ProgramsDistinct(listing[1..]);
      if EndsWith(listing[0].name, ".bf") {
        var r := [listing[0]] + rest;
        forall i, j | 0 <= i < j < |r| ensures r[i].name != r[j].name {
          if i == 0 {
            assert r[j] in listing[1..];
          } else {
            assert r[i] == rest[i - 1] && r[j] == rest[j - 1];
          }
        }
      }
    }
  }

  /** Strictly increasing names, the order `sorted` gives paths of one directory. */
  predicate SortedByName(files: seq<File>)
  {
    forall i, j :: 0 <= i < j < |files| ==> LexLess(files[i].name, files[j].name)
  }

  lemma SortedCons(f: File, rest: seq<File>)
    requires SortedByName(rest)
    requires forall k :: 0 <= k < |rest| ==> LexLess(f.name, rest[k].name)
    ensures SortedByName([f] + rest)
  {
    var s := [f] + rest;
    forall i, j | 0 <= i < j < |s| ensures LexLess(s[i].name, s[j].name) {
      if i > 0 {
        assert s[i] == rest[i - 1] && s[j] == rest[j - 1];
      }
    }
  }

  /** `f` placed into a name-sorted sequence at its position. */
  function InsertByName(sorted: seq<File>, f: File): (r: seq<File>)
    requires SortedByName(sorted)
    requires forall k :: 0 <= k < |sorted| ==> sorted[k].name != f.name
    ensures SortedByName(r)
    ensures multiset(r) == multiset(sorted) + multiset{f}
    decreases |sorted|
  {
    if sorted == [] then [f]
    else if LexLess(f.name, sorted[0].name) then
      BelowSorted(f, sorted);
      [f] + sorted
    else
      LexTotal(f.name, sorted[0].name);
      var rest := InsertByName(sorted[1..], f);
      AboveInserted(sorted, f, rest);
      [sorted[0]] + rest
  }

  /** A name below the first of a sorted sequence goes in front. */
  lemma BelowSorted(f: File, sorted: seq<File>)
    requires SortedByName(sorted) && sorted != [] && LexLess(f.name, sorted[0].name)
    ensures SortedByName([f] + sorted)
  {
    forall k | 0 < k < |sorted| ensures LexLess(f.name, sorted[k].name) {
      LexTransitive(f.name, sorted[0].name, sorted[k].name);
    }
    SortedCons(f, sorted);
  }

  /** The first file stays in front when `f`, a name after it, goes into the rest. */
  lemma AboveInserted(sorted: seq<File>, f: File, rest: seq<File>)
    requires SortedByName(sorted) && sorted != [] && LexLess(sorted[0].name, f.name)
    requires SortedByName(rest) && multiset(rest) == multiset(sorted[1..]) + multiset{f}
    ensures SortedByName([sorted[0]] + rest)
    ensures multiset([sorted[0]] + rest) == multiset(sorted) + multiset{f}
  {
    assert sorted == [sorted[0]] + sorted[1..];
    forall k | 0 <= k < |rest| ensures LexLess(sorted[0].name, rest[k].name) {
      assert rest[k] in multiset(rest);
      if rest[k] != f {
        assert rest[k] in sorted[1..];
      }
    }
    SortedCons(sorted[0], rest);
  }

  /** `sorted(...)` over the selected entries. */
  function SortByName(files: seq<File>): (r: seq<File>)
    requires DistinctNames(files)
    ensures SortedByName(r)
    ensures multiset(r) == multiset(files)
  {
    if files == [] then []
    else
      var init := files[..|files| - 1];
      var last := files[|files| - 1];
      assert files == init + [last];
      var sorted := SortByName(init);
      assert forall k :: 0 <= k < |sorted| ==> sorted[k].name != last.name by {
        forall k | 0 <= k < |sorted| ensures sorted[k].name != last.name {
          assert sorted[k] in multiset(init);
        }
      }
      InsertByName(sorted, last)
  }

  /** Python's universal-newline reading: `\r\n` and a lone `\r` both become `\n`. */
  function ReadText(s: String): (r: String)
    ensures '\r' !in r
    ensures |r| <= |s|
  {
    if s == [] then []
    else if s[0] == '\r' then "\n" + ReadText(if |s| >= 2 && s[1] == '\n' then s[2..] else s[1..])
    else [s[0]] + ReadText(s[1..])
  }

  /** Text without a carriage return is read as stored. */
  lemma {:induction false} ReadTextPlain(s: String)
    requires '\r' !in s
    ensures ReadText(s) == s
  {
    if s != [] {
      ReadTextPlain(s[1..]);
    }
  }

  /** `\r\n`, `\r` and `\n`: the line endings universal-newline reading recognises. */
  predicate IsLineEnd(e: String)
  {
    e == "\r\n" || e == "\r" || e == "\n"
  }

  predicate NoBreak(s: String)
  {
    '\r' !in s && '\n' !in s
  }

  /** Each line followed by its own ending. */
  function Ended(lines: seq<String>, ends: seq<String>): String
    requires |lines| == |ends|
  {
    if lines == [] then [] else lines[0] + ends[0] + Ended(lines[1..], ends[1..])
  }

  /**
   * No `\r` ending is directly followed by an empty line ended by `\n`:
   * such a pair would be read as one `\r\n`.
   */
  predicate EndsApart(lines: seq<String>, ends: seq<String>)
    requires |lines| == |ends|
  {
    forall k :: 0 < k < |lines| && lines[k] == [] && ends[k] == "\n" ==> ends[k - 1] != "\r"
  }

  lemma {:induction false} ReadTextPrefix(l: String, rest: String)
    requires '\r' !in l
    ensures ReadText(l + rest) == l + ReadText(rest)
  {
    if l != [] {
      assert (l + rest)[1..] == l[1..] + rest;
      ReadTextPrefix(l[1..], rest);
      assert (l + rest)[0] == l[0] != '\r';
      assert l == [l[0]] + l[1..];
      SeqAssoc([l[0]], l[1..], ReadText(rest));
    } else {
      assert l + rest == rest;
    }
  }

  lemma ReadTextEnd(e: String, rest: String)
    requires IsLineEnd(e)
    requires e == "\r" ==> rest == [] || rest[0] != '\n'
    ensures ReadText(e + rest) == "\n" + ReadText(rest)
  {
    var t := e + rest;
    if e == "\r\n" {
      assert t[2..] == rest;
    } else {
      assert t[1..] == rest;
    }
  }

  /**
   * Universal-newline reading: lines free of `\r` and `\n`, each ended by
   * `\r\n`, `\r` or `\n`, read back as the same lines each ended by `\n`;
   * an unended last line is kept as it is.
   */
  lemma {:induction false} ReadTextLines(lines: seq<String>, ends: seq<String>, last: String)
    requires |lines| == |ends| && EndsApart(lines, ends)
    requires forall k :: 0 <= k < |lines| ==> NoBreak(lines[k]) && IsLineEnd(ends[k])
    requires NoBreak(last)
    ensures ReadText(Ended(lines, ends) + last) == Concat(EndLines(lines)) + last
    decreases |lines|
  {
    if lines == [] {
      assert Ended(lines, ends) + last == last;
      assert EndLines(lines) == [];
      ReadTextPlain(last);
    } else {
      var tail := Ended(lines[1..], ends[1..]);
      var rest := tail + last;
      assert EndsApart(lines[1..], ends[1..]) by {
        forall k | 0 < k < |lines| - 1 && lines[1..][k] == [] && ends[1..][k] == "\n"
          ensures ends[1..][k - 1] != "\r"
        {
          assert lines[k + 1] == [] && ends[k + 1] == "\n";
        }
      }
      ReadTextLines(lines[1..], ends[1..], last);
      assert ends[0] == "\r" ==> rest == [] || rest[0] != '\n' by {
        if |lines| == 1 {
          assert tail == [] && rest == last;
        } else if lines[1] != [] {
          assert rest[0] == lines[1][0];
        } else {
          assert rest[0] == ends[1][0];
        }
      }
      SeqAssoc(lines[0], ends[0], tail);
      SeqAssoc(lines[0] + ends[0], tail, last);
      SeqAssoc(lines[0], ends[0], rest);
      ReadTextPrefix(lines[0], ends[0] + rest);
      ReadTextEnd(ends[0], rest);
      assert EndLines(lines) == [lines[0] + "\n"] + EndLines(lines[1..]);
      assert Concat(EndLines(lines)) == lines[0] + "\n" + Concat(EndLines(lines[1..]));
      SeqAssoc(lines[0] + "\n", Concat(EndLines(lines[1..])), last);
    }
  }

  /** The dataset line for one program, without its `\n`. */
  function Sample(raw: String): String
  {
    ReplaceWith(raw, '\n', " ") + "\t" + Normalize(raw)
  }

  /** A sample holds no `\n`; its tab count is the raw program's plus one. */
  lemma SampleShape(raw: String)
    ensures '\n' !in Sample(raw)
    ensures Count(Sample(raw), '\t') == Count(raw, '\t') + 1
    ensures |Sample(raw)| == |raw| + 1 + |Normalize(raw)|
  {
    var flat := ReplaceWith(raw, '\n', " ");
    var norm := Normalize(raw);
    assert Sample(raw) == flat + "\t" + norm;
    assert '\n' !in flat by {
      if '\n' in flat {
        ReplaceWithMembers(raw, '\n', " ", '\n');
      }
    }
    NormalOmits(raw, '\n');
    NormalOmits(raw, '\t');
    assert |flat| == |raw| by {
      ReplaceWithLength(raw, '\n', " ");
    }
    assert Count(flat, '\t') == Count(raw, '\t') by {
      ReplaceWithTabs(raw);
    }
    CountConcat(flat + "\t", norm, '\t');
    CountConcat(flat, "\t", '\t');
    CountBound(norm, '\t');
  }

  lemma {:induction false} ReplaceWithTabs(raw: String)
    ensures Count(ReplaceWith(raw, '\n', " "), '\t') == Count(raw, '\t')
  {
    if raw != [] {
      ReplaceWithTabs(raw[1..]);
    }
  }

  function Samples(files: seq<File>): seq<String>
  {
    seq(|files|, k requires 0 <= k < |files| => Sample(ReadText(files[k].content)))
  }

  /** `files` holds exactly the `*.bf` entries of `listing`. */
  ghost predicate SelectedFrom(files: seq<File>, listing: seq<File>)
  {
    forall f :: multiset(files)[f] == if EndsWith(f.name, ".bf") then multiset(listing)[f] else 0
  }

  /** `sorted(directory.glob("*.bf"))`. */
  function SelectAndSort(listing: seq<File>): (files: seq<File>)
    requires DistinctNames(listing)
    ensures SortedByName(files)
    ensures SelectedFrom(files, listing)
  {
    ProgramsDistinct(listing);
    var files := SortByName(Programs(listing));
    forall f ensures multiset(files)[f] == if EndsWith(f.name, ".bf") then multiset(listing)[f] else 0 {
      ProgramsCount(listing, f);
    }
    files
  }

  /** Each line followed by `\n`; `Terminated` concatenates these. */
  function EndLines(lines: seq<String>): seq<String>
  {
    seq(|lines|, k requires 0 <= k < |lines| => lines[k] + "\n")
  }

  lemma EndLinesSnoc(lines: seq<String>, last: String)
    ensures EndLines(lines + [last]) == EndLines(lines) + [last + "\n"]
  {
  }

  /**
   * `main`: the selected programs in sorted name order, and the new dataset text, one sample line
   * per program, each ended by `\n`.
   */
  method Collect(listing: seq<File>) returns (files: seq<File>, output: String)
    requires DistinctNames(listing)
    ensures SortedByName(files)
    ensures SelectedFrom(files, listing)
    ensures output == Terminated(Samples(files))
  {
    files := SelectAndSort(listing);
    output := JoinSamples(files);
  }

  /** The loop of `main`: one sample line per program, appended in order, then joined. */
  method JoinSamples(files: seq<File>) returns (output: String)
    ensures output == Terminated(Samples(files))
  {
    ghost var lines := Samples(files);
    var samples: seq<String> := [];
    var i := 0;
    while i < |files|
      invariant 0 <= i <= |files|
      invariant samples == EndLines(lines[..i])
    {
      var raw := ReadText(files[i].content);
      assert lines[i] == Sample(raw);
      EndLinesSnoc(lines[..i], lines[i]);
      assert lines[..i + 1] == lines[..i] + [lines[i]];
      samples := samples + [Sample(raw) + "\n"];
      i := i + 1;
    }
    assert lines[..|files|] == lines;
    output := Concat(samples);
  }

  /** Every line boundary in `s` is a `\n`. */
  predicate OnlyNewlines(s: String)
  {
    forall i :: 0 <= i < |s| ==> IsLineBoundary(s[i]) ==> s[i] == '\n'
  }

  /** The raw program with every line boundary and every tab turned into a space. */
  function Blank(raw: String): (r: String)
    ensures |r| == |raw| && NoBoundary(r) && '\t' !in r
  {
    if raw == [] then []
    else [if IsLineBoundary(raw[0]) || raw[0] == '\t' then ' ' else raw[0]] + Blank(raw[1..])
  }

  /** A dataset line that keeps one line per program and one tab per line whatever the program holds. */
  function CleanSample(raw: String): String
  {
    Blank(raw) + "\t" + Normalize(raw)
  }

  /** On programs without tabs and without boundaries other than `\n`, nothing changes. */
  lemma {:induction false} BlankAgrees(raw: String)
    requires '\t' !in raw && OnlyNewlines(raw)
    ensures Blank(raw) == ReplaceWith(raw, '\n', " ")
  {
    if raw != [] {
      BlankAgrees(raw[1..]);
    }
  }

  lemma CleanSampleAgrees(raw: String)
    requires '\t' !in raw && OnlyNewlines(raw)
    ensures CleanSample(raw) == Sample(raw)
  {
    BlankAgrees(raw);
  }

  function CleanSamples(files: seq<File>): seq<String>
  {
    seq(|files|, k requires 0 <= k < |files| => CleanSample(ReadText(files[k].content)))
  }
}
