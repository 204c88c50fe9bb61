/**
 * The header generator (tools/generateMlModelHeader.py): it reads a rule file line by line, keeps
 * each stripped line that is neither blank nor a comment and holds exactly one tab, and writes the
 * kept rules as the entries of a C++ array `mlModel` of `{pattern, replacement}` pairs.  Patterns
 * are written as raw string literals, replacements as ordinary literals escaped by `escape_cpp`.
 *
 * Besides the generator itself the module holds a reader for the C++ text it writes (the string
 * literals of the entries, as a C++ compiler reads them), so that what the header means can be
 * stated as a round trip.
 */
module HeaderGen {
  import opened Text
  import Collector
  import ModelTrainer

  type Rule = (String, String)

  /** `escape_cpp(s)`: every backslash doubled first, then every double quote preceded by a backslash. */
  function EscapeCpp(s: String): String
  {
    ReplaceWith(ReplaceWith(s, '\\', "\\\\"), '"', "\\\"")
  }

  /** What one character becomes in the escaped text. */
  function EscapeChar(c: char): String
  {
    if c == '\\' then "\\\\" else if c == '"' then "\\\"" else [c]
  }

  /** The two passes escape each character on its own: the backslash added for a quote is not doubled again. */
  lemma EscapeCons(c: char, s: String)
    ensures EscapeCpp([c] + s) == EscapeChar(c) + EscapeCpp(s)
  {
    var once := ReplaceWith([c], '\\', "\\\\");
    ReplaceWithConcat([c], s, '\\', "\\\\");
    ReplaceWithConcat(once, ReplaceWith(s, '\\', "\\\\"), '"', "\\\"");
    if c == '\\' {
      assert once == "\\\\";
      assert ReplaceWith(once, '"', "\\\"") == "\\\\" by {
        ReplaceWithAbsent(once, '"', "\\\"");
      }
    } else {
      assert once == [c];
    }
  }

  /** Escaping adds exactly one character per backslash and per double quote. */
  lemma {:induction false} EscapeLength(s: String)
    ensures |EscapeCpp(s)| == |s| + Count(s, '\\') + Count(s, '"')
  {
    if s != [] {
      assert s == [s[0]] + s[1..];
      EscapeCons(s[0], s[1..]);
      EscapeLength(s[1..]);
    }
  }

  /** Text without backslashes and double quotes is written unchanged. */
  lemma EscapeAbsent(s: String)
    requires '\\' !in s && '"' !in s
    ensures EscapeCpp(s) == s
  {
    ReplaceWithAbsent(s, '\\', "\\\\");
    ReplaceWithAbsent(s, '"', "\\\"");
  }

  /** The character a C++ simple escape sequence `\c` denotes. */
  function SimpleEscape(c: char): Option<char>
  {
    match c
      case '\'' => Some('\'')
      case '"' => Some('"')
      case '?' => Some('?')
      case '\\' => Some('\\')
      case 'a' => Some('\U{7}')
      case 'b' => Some('\U{8}')
      case 'f' => Some('\U{c}')
      case 'n' => Some('\n')
      case 'r' => Some('\r')
      case 't' => Some('\t')
      case 'v' => Some('\U{b}')
      case _ => None
  }

  /**
   * Reads an ordinary string literal after its opening quote: the characters it denotes and the text
   * after its closing quote; `None` when the literal is not closed on its line or has an escape that is
   * not a simple one.
   */
  function ReadLiteral(s: String): (r: Option<(String, String)>)
    ensures r.Some? ==> |r.value.1| < |s|
    decreases |s|
  {
    if s == [] || s[0] == '\n' then None
    else if s[0] == '"' then Some(([], s[1..]))
    else if s[0] == '\\' then
      if |s| < 2 then None
      else match SimpleEscape(s[1])
        case None => None
        case Some(c) =>
          match ReadLiteral(s[2..])
            case None => None
            case Some(p) => Some(([c] + p.0, p.1))
    else
      match ReadLiteral(s[1..])
        case None => None
        case Some(p) => Some(([s[0]] + p.0, p.1))
  }

  /** An escaped text followed by a quote reads back as the text itself, when it holds no newline. */
  lemma {:induction false} ReadEscaped(x: String, rest: String)
    requires '\n' !in x
    ensures ReadLiteral(EscapeCpp(x) + "\"" + rest) == Some((x, rest))
  {
    if x == [] {
      assert EscapeCpp(x) + "\"" + rest == "\"" + rest;
    } else {
      var tail := EscapeCpp(x[1..]) + "\"" + rest;
      assert x == [x[0]] + x[1..];
      EscapeCons(x[0], x[1..]);
      ReadEscaped(x[1..], rest);
      Assoc(EscapeChar(x[0]), EscapeCpp(x[1..]), "\"");
      Assoc(EscapeChar(x[0]), EscapeCpp(x[1..]) + "\"", rest);
      ReadEscapedChar(x[0], tail, x[1..], rest);
    }
  }

  /** One escaped character in front of a literal's text is read back as that character. */
  lemma ReadEscapedChar(c: char, tail: String, y: String, rest: String)
    requires c != '\n' && ReadLiteral(tail) == Some((y, rest))
    ensures ReadLiteral(EscapeChar(c) + tail) == Some(([c] + y, rest))
  {
    var s := EscapeChar(c) + tail;
    if c == '\\' || c == '"' {
      assert s[0] == '\\' && s[1] == c && s[2..] == tail;
    } else {
      assert s[0] == c && s[1..] == tail;
    }
  }

  /** `p` holds no `)"`, the end of a raw string literal with an empty delimiter. */
  predicate NoRawEnd(p: String)
  {
    forall i :: 0 <= i < |p| - 1 ==> !(p[i] == ')' && p[i + 1] == '"')
  }

  /** Reads a raw string literal after its `R"(`: everything up to the first `)"`, and the text after it. */
  function ReadRaw(s: String): (r: Option<(String, String)>)
    ensures r.Some? ==> |r.value.1| < |s|
    decreases |s|
  {
    if |s| < 2 then None
    else if s[0] == ')' && s[1] == '"' then Some(([], s[2..]))
    else
      match ReadRaw(s[1..])
        case None => None
        case Some(p) => Some(([s[0]] + p.0, p.1))
  }

  /** A raw literal reads back as its text exactly when the text holds no `)"`. */
  lemma {:induction false} ReadRawBack(p: String, rest: String)
    requires NoRawEnd(p)
    ensures ReadRaw(p + ")\"" + rest) == Some((p, rest))
  {
    var s := p + ")\"" + rest;
    if p == [] {
      assert s == ")\"" + rest;
      assert s[2..] == rest;
    } else {
      var t := p[1..] + ")\"" + rest;
      assert s == [p[0]] + t;
      assert s[1..] == t;
      assert !(s[0] == ')' && s[1] == '"') by {
        if |p| >= 2 {
          assert s[1] == p[1];
        }
      }
      assert NoRawEnd(p[1..]) by {
        forall i | 0 <= i < |p[1..]| - 1 ensures !(p[1..][i] == ')' && p[1..][i + 1] == '"') {
          assert p[1..][i] == p[i + 1] && p[1..][i + 1] == p[i + 2];
        }
      }
      ReadRawBack(p[1..], rest);
      assert [p[0]] + p[1..] == p;
    }
  }

  /** A pattern holding `)"` is cut short: the literal ends at its first `)"`. */
  lemma RawEndCuts(rest: String)
    ensures ReadRaw(")\"" + ")\"" + rest) == Some(([], ")\"" + rest))
  {
    var s := ")\"" + ")\"" + rest;
    assert s[0] == ')' && s[1] == '"';
    assert s[2..] == ")\"" + rest;
  }

  /** How an entry writes its pattern: as the generator does, or as an escaped ordinary literal. */
  datatype Quoting = Raw | Escaped

  /** One line of the array. */
  function Entry(rule: Rule, q: Quoting): String
  {
    match q
      case Raw => "    {R\"(" + rule.0 + ")\", \"" + EscapeCpp(rule.1) + "\"},\n"
      case Escaped => "    {\"" + EscapeCpp(rule.0) + "\", \"" + EscapeCpp(rule.1) + "\"},\n"
  }

  /** The entries of `rules`, in order. */
  function Table(rules: seq<Rule>, q: Quoting): String
  {
    if rules == [] then [] else Entry(rules[0], q) + Table(rules[1..], q)
  }

  /** The five writes before the entries. */
  const PrologueWrites: seq<String> := [
    "// Auto-generated from assets/ml_model.txt\n",
    "#pragma once\n\n",
    "namespace goof2 {\n",
    "struct MlRule { const char* pattern; const char* replacement; };\n",
    "inline constexpr MlRule mlModel[] = {\n"]

  /** The write that closes the array. */
  const Close: String := "};\n"

  /** The two writes after the array. */
  const TrailerWrites: seq<String> := [
    "inline constexpr size_t mlModelCount = sizeof(mlModel) / sizeof(mlModel[0]);\n",
    "} // namespace goof2\n"]

  const Prologue: String := Concat(PrologueWrites)
  const Trailer: String := Concat(TrailerWrites)

  /** One entry line per rule, as separate writes. */
  function Entries(rules: seq<Rule>, q: Quoting): (r: seq<String>)
    ensures |r| == |rules|
  {
    seq(|rules|, k requires 0 <= k < |rules| => Entry(rules[k], q))
  }

  /** Every write the generator makes for `rules`, in order. */
  function Writes(rules: seq<Rule>, q: Quoting): seq<String>
  {
    PrologueWrites + Entries(rules, q) + [Close] + TrailerWrites
  }

  /** The whole header written for `rules`. */
  function Header(rules: seq<Rule>, q: Quoting): String
  {
    Prologue + (Table(rules, q) + (Close + Trailer))
  }

  /** The rule a line holds, or `None` when the loop skips the line. */
  function HeaderRule(line: String): Option<Rule>
  {
    var t := Strip(line);
    if t == [] || StartsWith(t, "#") || StartsWith(t, "//") then None
    else
      var parts := SplitAll(t, '\t');
      if |parts| != 2 then None else Some((parts[0], parts[1]))
  }

  /** The text of a kept line, stripped. */
  predicate KeptText(t: String, rule: Rule)
  {
    t != [] && !StartsWith(t, "#") && !StartsWith(t, "//")
    && t == rule.0 + "\t" + rule.1 && '\t' !in rule.0 && '\t' !in rule.1
  }

  /** A line is kept exactly when its stripped text is not a comment and is two tab-free fields joined by one tab. */
  lemma HeaderRuleFacts(line: String, rule: Rule)
    ensures HeaderRule(line) == Some(rule) <==> KeptText(Strip(line), rule)
  {
    if HeaderRule(line) == Some(rule) {
      HeaderRuleKept(line);
    }
    if KeptText(Strip(line), rule) {
      HeaderRuleOf(line, rule);
    }
  }

  lemma HeaderRuleKept(line: String)
    requires HeaderRule(line).Some?
    ensures KeptText(Strip(line), HeaderRule(line).value)
  {
    var t := Strip(line);
    SplitAllPair(t, '\t');
  }

  lemma HeaderRuleOf(line: String, rule: Rule)
    requires KeptText(Strip(line), rule)
    ensures HeaderRule(line) == Some(rule)
  {
    SplitAllTwo(rule.0, rule.1, '\t');
  }

  /** The rules kept from `lines`, in order. */
  function Rules(lines: seq<String>): seq<Rule>
  {
    if lines == [] then []
    else
      var last := lines[|lines| - 1];
      Rules(lines[..|lines| - 1]) + match HeaderRule(last) case None => [] case Some(r) => [r]
  }

  /** The reading loop of `main()`: the rules kept from the lines of the rule file `input`. */
  method ReadRules(input: String) returns (rules: seq<Rule>)
    ensures rules == Rules(FileLines(Collector.ReadText(input)))
  {
    var lines := FileLines(Collector.ReadText(input));
    rules := [];
    var i := 0;
    while i < |lines|
      invariant 0 <= i <= |lines|
      invariant rules == Rules(lines[..i])
    {
      RulesSnoc(lines, i);
      var line := Strip(lines[i]);
      if line != [] && !StartsWith(line, "#") && !StartsWith(line, "//") {
        var parts := SplitAll(line, '\t');
        if |parts| == 2 {
          rules := rules + [(parts[0], parts[1])];
        }
      }
      i := i + 1;
    }
    assert lines[..|lines|] == lines;
  }

  /** The writing part of `main()`: the writes made to the output file for `rules`. */
  method WriteHeader(rules: seq<Rule>) returns (writes: seq<String>)
    ensures writes == Writes(rules, Raw)
    ensures Concat(writes) == Header(rules, Raw)
  {
    writes := PrologueWrites;
    var k := 0;
    while k < |rules|
      invariant 0 <= k <= |rules|
      invariant writes == PrologueWrites + Entries(rules[..k], Raw)
    {
      assert Entries(rules[..k + 1], Raw) == Entries(rules[..k], Raw) + [Entry(rules[k], Raw)];
      writes := writes + [Entry(rules[k], Raw)];
      k := k + 1;
    }
    assert rules[..|rules|] == rules;
    writes := writes + [Close];
    writes := writes + TrailerWrites;
    WritesMakeHeader(rules, Raw);
  }

  /** The writes put together are the header text. */
  lemma WritesMakeHeader(rules: seq<Rule>, q: Quoting)
    ensures Concat(Writes(rules, q)) == Header(rules, q)
  {
    ConcatFour(PrologueWrites, Entries(rules, q), [Close], TrailerWrites);
    TableEntries(rules, q);
    ConcatOne(Close);
  }

  lemma ConcatOne(x: String)
    ensures Concat([x]) == x
  {
    assert [x][1..] == [];
  }

  lemma ConcatFour(a: seq<String>, b: seq<String>, c: seq<String>, d: seq<String>)
    ensures Concat(a + b + c + d) == Concat(a) + (Concat(b) + (Concat(c) + Concat(d)))
  {
    ConcatJoin(a + b + c, d);
    ConcatJoin(a + b, c);
    ConcatJoin(a, b);
    Regroup(Concat(a), Concat(b), Concat(c), Concat(d));
  }

  lemma Regroup(a: String, b: String, c: String, d: String)
    ensures a + b + c + d == a + (b + (c + d))
  {
  }

  lemma {:induction false} TableEntries(rules: seq<Rule>, q: Quoting)
    ensures Concat(Entries(rules, q)) == Table(rules, q)
  {
    if rules != [] {
      assert Entries(rules, q)[1..] == Entries(rules[1..], q);
      TableEntries(rules[1..], q);
    }
  }

  /** `main()`: the header the generator writes for the rule file `input`. */
  method GenerateHeader(input: String) returns (out: String)
    ensures out == Header(Rules(FileLines(Collector.ReadText(input))), Raw)
  {
    var rules := ReadRules(input);
    var writes := WriteHeader(rules);
    out := Concat(writes);
  }

  /** Reads the pattern of an entry after its opening delimiter. */
  function ReadPattern(s: String, q: Quoting): (r: Option<(String, String)>)
    ensures r.Some? ==> |r.value.1| < |s|
  {
    match q
      case Raw => ReadRaw(s)
      case Escaped => ReadLiteral(s)
  }

  function EntryOpen(q: Quoting): String
  {
    match q
      case Raw => "    {R\"("
      case Escaped => "    {\""
  }

  /** Reads one entry line: its pattern and replacement as the compiler sees them, and the text after it. */
  function ReadEntry(s: String, q: Quoting): (r: Option<(Rule, String)>)
    ensures r.Some? ==> |r.value.1| < |s|
  {
    var open := EntryOpen(q);
    if !StartsWith(s, open) then None
    else
      match ReadPattern(s[|open|..], q)
        case None => None
        case Some(p) =>
          if !StartsWith(p.1, ", \"") then None
          else
            match ReadLiteral(p.1[3..])
              case None => None
              case Some(r) => if StartsWith(r.1, "},\n") then Some(((p.0, r.0), r.1[3..])) else None
  }

  /** Reads entries up to the `};` line that closes the array. */
  function ReadTable(s: String, q: Quoting): Option<(seq<Rule>, String)>
    decreases |s|
  {
    if StartsWith(s, Close) then Some(([], s[|Close|..]))
    else
      match ReadEntry(s, q)
        case None => None
        case Some(e) =>
          match ReadTable(e.1, q)
            case None => None
            case Some(t) => Some(([e.0] + t.0, t.1))
  }

  /** The rules a header declares, when it has the generator's layout. */
  function ReadHeader(s: String, q: Quoting): Option<seq<Rule>>
  {
    if !StartsWith(s, Prologue) then None
    else
      match ReadTable(s[|Prologue|..], q)
        case None => None
        case Some(t) => if t.1 == Trailer then Some(t.0) else None
  }

  /** A rule survives being written in quoting `q`. */
  predicate Writable(rule: Rule, q: Quoting)
  {
    '\n' !in rule.1 && match q
      case Raw => NoRawEnd(rule.0)
      case Escaped => '\n' !in rule.0
  }

  /** How a pattern is written between the entry's opening and the replacement. */
  function PatternText(p: String, q: Quoting): String
  {
    match q
      case Raw => p + ")\""
      case Escaped => EscapeCpp(p) + "\""
  }

  /** The text of an entry after its pattern, followed by `rest`. */
  function AfterPattern(r: String, rest: String): String
  {
    ", \"" + (EscapeCpp(r) + "\"" + ("},\n" + rest))
  }

  lemma RegroupEntry(a: String, p: String, m1: String, m2: String, e: String, c1: String, c2: String, rest: String)
    ensures a + p + (m1 + m2) + e + (c1 + c2) + rest == a + ((p + m1) + (m2 + (e + c1 + (c2 + rest))))
  {
  }

  lemma Drop(a: String, b: String)
    ensures (a + b)[|a|..] == b
  {
  }

  /** An entry line splits into its opening, its pattern and the rest of the line. */
  lemma EntryShape(rule: Rule, q: Quoting, rest: String)
    ensures Entry(rule, q) + rest == EntryOpen(q) + (PatternText(rule.0, q) + AfterPattern(rule.1, rest))
  {
    assert "\"},\n" == "\"" + "},\n";
    if q == Raw {
      assert ")\", \"" == ")\"" + ", \"";
      RegroupEntry(EntryOpen(q), rule.0, ")\"", ", \"", EscapeCpp(rule.1), "\"", "},\n", rest);
    } else {
      assert "\", \"" == "\"" + ", \"";
      RegroupEntry(EntryOpen(q), EscapeCpp(rule.0), "\"", ", \"", EscapeCpp(rule.1), "\"", "},\n", rest);
    }
  }

  lemma EntryReads(rule: Rule, q: Quoting, rest: String)
    requires Writable(rule, q)
    ensures ReadEntry(Entry(rule, q) + rest, q) == Some((rule, rest))
  {
    var after := AfterPattern(rule.1, rest);
    var open := EntryOpen(q);
    EntryShape(rule, q, rest);
    Drop(open, PatternText(rule.0, q) + after);
    assert ReadPattern(PatternText(rule.0, q) + after, q) == Some((rule.0, after)) by {
      if q == Raw {
        ReadRawBack(rule.0, after);
      } else {
        ReadEscaped(rule.0, after);
      }
    }
    ReplacementReads(rule.1, rest);
  }

  /** The part of an entry after its pattern reads back as the replacement. */
  lemma ReplacementReads(r: String, rest: String)
    requires '\n' !in r
    ensures StartsWith(AfterPattern(r, rest), ", \"")
    ensures ReadLiteral(AfterPattern(r, rest)[3..]) == Some((r, "},\n" + rest))
  {
    Drop(", \"", EscapeCpp(r) + "\"" + ("},\n" + rest));
    ReadEscaped(r, "},\n" + rest);
  }

  lemma {:induction false} TableReads(rules: seq<Rule>, q: Quoting, rest: String)
    requires forall k :: 0 <= k < |rules| ==> Writable(rules[k], q)
    requires StartsWith(rest, Close)
    ensures ReadTable(Table(rules, q) + rest, q) == Some((rules, rest[|Close|..]))
  {
    if rules == [] {
      assert Table(rules, q) + rest == rest;
    } else {
      var tail := Table(rules[1..], q) + rest;
      var s := Entry(rules[0], q) + tail;
      assert Table(rules, q) + rest == s by {
        SeqAssoc(Entry(rules[0], q), Table(rules[1..], q), rest);
      }
      assert !StartsWith(s, Close) by {
        EntryShape(rules[0], q, tail);
        assert s[0] == EntryOpen(q)[0] == ' ';
      }
      EntryReads(rules[0], q, tail);
      TableReads(rules[1..], q, rest);
      ReadTableStep(s, q, (rules[0], tail), (rules[1..], rest[|Close|..]));
      assert [rules[0]] + rules[1..] == rules;
    }
  }

  /** One entry read, then the rest of the table. */
  lemma ReadTableStep(s: String, q: Quoting, e: (Rule, String), t: (seq<Rule>, String))
    requires !StartsWith(s, Close) && ReadEntry(s, q) == Some(e) && ReadTable(e.1, q) == Some(t)
    ensures ReadTable(s, q) == Some(([e.0] + t.0, t.1))
  {
  }

  /** The header declares exactly the rules it was written for, in order, when each survives its quoting. */
  lemma HeaderReads(rules: seq<Rule>, q: Quoting)
    requires forall k :: 0 <= k < |rules| ==> Writable(rules[k], q)
    ensures ReadHeader(Header(rules, q), q) == Some(rules)
  {
    var rest := Close + Trailer;
    var s := Header(rules, q);
    assert s[|Prologue|..] == Table(rules, q) + rest;
    TableReads(rules, q, rest);
    assert rest[|Close|..] == Trailer;
  }

  /**
   * `mlModelCount = sizeof(mlModel) / sizeof(mlModel[0])`: the number of
   * elements of the array a header declares, when it has the generator's layout.
   */
  function MlModelCount(s: String, q: Quoting): Option<nat>
  {
    match ReadHeader(s, q)
      case None => None
      case Some(rules) => Some(|rules|)
  }

  /** The count a generated header declares is the number of rules it was written for. */
  lemma HeaderCount(rules: seq<Rule>, q: Quoting)
    requires forall k :: 0 <= k < |rules| ==> Writable(rules[k], q)
    ensures MlModelCount(Header(rules, q), q) == Some(|rules|)
  {
    HeaderReads(rules, q);
  }

  /**
   * An empty rule file still gives a header: the prologue, whose last write opens the array with
   * `mlModel[] = {`, is followed directly by the `};` that closes it, and the table reads back as
   * one of no rules.
   */
  lemma EmptyHeader(rules: seq<Rule>, q: Quoting)
    requires rules == []
    ensures Writes(rules, q) == PrologueWrites + [Close] + TrailerWrites
    ensures MlModelCount(Header(rules, q), q) == Some(0)
  {
    assert Entries(rules, q) == [];
    HeaderCount(rules, q);
  }

  /** A blank line and a `#` comment are skipped; the one rule line is kept. */
  lemma CommentsSkipped()
    ensures Rules(["\n", "# note\n", "a\tb\n"]) == [("a", "b")]
  {
    BlankLineSkipped();
    HashLineSkipped();
    PlainRuleKept();
    SkipSkipKeep("\n", "# note\n", "a\tb\n", ("a", "b"));
  }

  lemma PlainRuleKept()
    ensures HeaderRule("a\tb\n") == Some(("a", "b"))
  {
    RuleLineKept(("a", "b"));
    assert "a" + "\t" + "b" + "\n" == "a\tb\n";
  }

  lemma SkipSkipKeep(x: String, y: String, z: String, rule: Rule)
    requires HeaderRule(x) == None && HeaderRule(y) == None && HeaderRule(z) == Some(rule)
    ensures Rules([x, y, z]) == [rule]
  {
    var lines := [x, y, z];
    assert lines[..0] == [] && lines[..3] == lines;
    assert lines[0] == x && lines[1] == y && lines[2] == z;
    RulesSnoc(lines, 0);
    RulesSnoc(lines, 1);
    RulesSnoc(lines, 2);
  }

  lemma BlankLineSkipped()
    ensures HeaderRule("\n") == None
  {
    assert IsSpace("\n"[0]);
  }

  lemma HashLineSkipped()
    ensures HeaderRule("# note\n") == None
  {
    StripTrailing("# note", "\n");
    assert StartsWith(Strip("# note\n"), "#");
  }

  /** A rule written as one line of a rule file is kept as it was. */
  lemma RuleLineKept(rule: Rule)
    requires rule.0 != [] && !IsSpace(rule.0[0]) && rule.0[0] != '#' && rule.0[0] != '/'
    requires rule.1 != [] && !IsSpace(rule.1[|rule.1| - 1])
    requires '\t' !in rule.0 && '\t' !in rule.1
    ensures HeaderRule(rule.0 + "\t" + rule.1 + "\n") == Some(rule)
  {
    var t := rule.0 + "\t" + rule.1;
    assert Strip(t + "\n") == t by {
      assert t[0] == rule.0[0] && t[|t| - 1] == rule.1[|rule.1| - 1];
      StripTrailing(t, "\n");
    }
    assert !StartsWith(t, "#") && !StartsWith(t, "//") by {
      assert t[0] == rule.0[0];
    }
    HeaderRuleOf(t + "\n", rule);
  }

  lemma RawEndRuleKept()
    ensures Rules([")\"" + "\t" + "x" + "\n"]) == [(")\"", "x")]
  {
    var line := ")\"" + "\t" + "x" + "\n";
    RuleLineKept((")\"", "x"));
    assert [line][..0] == [];
  }

  /** The entry of a rule whose pattern is `)"` does not read as an entry. */
  lemma RawEndEntryBreaks(x: String, rest: String)
    ensures ReadEntry(Entry((")\"", x), Raw) + rest, Raw) == None
  {
    var after := AfterPattern(x, rest);
    EntryShape((")\"", x), Raw, rest);
    Drop(EntryOpen(Raw), PatternText(")\"", Raw) + after);
    RawEndCuts(after);
    var v := ")\"" + after;
    assert v[0] == ')';
    assert !StartsWith(v, ", \"");
  }

  /** A table whose first entry has the pattern `)"` is unreadable, whatever follows. */
  lemma RawEndTableBreaks(x: String, u: String)
    ensures ReadTable(Entry((")\"", x), Raw) + u, Raw) == None
  {
    var t := Entry((")\"", x), Raw) + u;
    RawEndEntryBreaks(x, u);
    assert t[0] == ' ';
    assert !StartsWith(t, Close);
  }

  lemma Assoc(a: String, b: String, c: String)
    ensures a + b + c == a + (b + c)
  {
  }

  /** A header whose first rule has the pattern `)"` is unreadable, whatever follows. */
  lemma RawEndFirstBreaks(x: String, more: seq<Rule>)
    ensures ReadHeader(Header([(")\"", x)] + more, Raw), Raw) == None
  {
    var rules := [(")\"", x)] + more;
    var rest := Close + Trailer;
    assert rules[1..] == more;
    var e := Entry(rules[0], Raw);
    assert Table(rules, Raw) == e + Table(more, Raw);
    Assoc(e, Table(more, Raw), rest);
    Drop(Prologue, Table(rules, Raw) + rest);
    RawEndTableBreaks(x, Table(more, Raw) + rest);
  }

  /** A rule whose pattern holds `)"` makes the generated header unreadable. */
  lemma RawEndBreaksHeader()
    ensures Rules([")\"" + "\t" + "x" + "\n"]) == [(")\"", "x")]
    ensures ReadHeader(Header([(")\"", "x")], Raw), Raw) == None
  {
    RawEndRuleKept();
    RawEndFirstBreaks("x", []);
    assert [(")\"", "x")] + [] == [(")\"", "x")];
  }

  /** A line holds no newline once stripped, when it held one only at its end. */
  lemma StripDropsNewline(line: String)
    requires line != [] && '\n' !in line[..|line| - 1]
    ensures '\n' !in Strip(line)
  {
    var r := Strip(line);
    var a :| TrimmedAt(line, r, a);
    forall i | 0 <= i < |r| ensures r[i] != '\n' {
      assert r[i] == line[a + i];
      if a + i < |line| - 1 {
        assert line[..|line| - 1][a + i] == line[a + i];
      } else {
        assert i == |r| - 1 && !IsSpace(r[i]);
      }
    }
  }

  /** A kept rule has no tab in either field and, for a line of a file, no newline. */
  lemma {:induction false} RulesShape(lines: seq<String>)
    requires forall i :: 0 <= i < |lines| ==> lines[i] != [] && '\n' !in lines[i][..|lines[i]| - 1]
    ensures forall k :: 0 <= k < |Rules(lines)| ==> Writable(Rules(lines)[k], Escaped)
  {
    if lines != [] {
      var last := lines[|lines| - 1];
      RulesShape(lines[..|lines| - 1]);
      match HeaderRule(last)
        case None =>
        case Some(rule) =>
          HeaderRuleKept(last);
          StripDropsNewline(last);
          assert '\n' !in rule.0 + "\t" + rule.1;
          assert Writable(rule, Escaped) by {
            assert forall i :: 0 <= i < |rule.0| ==> (rule.0 + "\t" + rule.1)[i] == rule.0[i];
            assert forall i :: 0 <= i < |rule.1| ==> (rule.0 + "\t" + rule.1)[|rule.0| + 1 + i] == rule.1[i];
          }
    }
  }

  /** With patterns quoted like replacements, the header of every rule file declares exactly its rules. */
  lemma EscapedHeaderReads(input: String)
    ensures var rules := Rules(FileLines(Collector.ReadText(input)));
      ReadHeader(Header(rules, Escaped), Escaped) == Some(rules)
  {
    var rules := Rules(FileLines(Collector.ReadText(input)));
    RulesShape(FileLines(Collector.ReadText(input)));
    HeaderReads(rules, Escaped);
  }

  /** A rule the loop keeps unchanged when it is written as `pattern<TAB>replacement`. */
  predicate Keepable(rule: Rule)
  {
    rule.0 != [] && !IsSpace(rule.0[0]) && rule.0[0] != '#' && rule.0[0] != '/'
    && rule.1 != [] && !IsSpace(rule.1[|rule.1| - 1])
    && '\t' !in rule.0 && '\t' !in rule.1
  }

  /** The lines of a saved model as `for line in f` yields them. */
  function SavedLines(model: seq<Rule>): seq<String>
  {
    seq(|model|, i requires 0 <= i < |model| => ModelTrainer.RuleLine(model[i]) + "\n")
  }

  lemma RulesKeep(lines: seq<String>, rule: Rule)
    requires lines != [] && HeaderRule(lines[|lines| - 1]) == Some(rule)
    ensures Rules(lines) == Rules(lines[..|lines| - 1]) + [rule]
  {
  }

  /** One more line read: the rules so far, then the rule that line holds, if any. */
  lemma RulesSnoc(lines: seq<String>, i: nat)
    requires i < |lines|
    ensures Rules(lines[..i + 1]) == Rules(lines[..i]) + match HeaderRule(lines[i]) case None => [] case Some(r) => [r]
  {
    assert lines[..i + 1][..i] == lines[..i];
  }

  lemma SavedLinesSnoc(model: seq<Rule>)
    requires model != []
    ensures var n := |model|;
      SavedLines(model)[..n - 1] == SavedLines(model[..n - 1])
      && SavedLines(model)[n - 1] == model[n - 1].0 + "\t" + model[n - 1].1 + "\n"
  {
  }

  lemma {:induction false} RulesOfSavedLines(model: seq<Rule>)
    requires forall k :: 0 <= k < |model| ==> Keepable(model[k])
    ensures Rules(SavedLines(model)) == model
  {
    if model != [] {
      var n := |model|;
      var init := model[..n - 1];
      assert init + [model[n - 1]] == model;
      var lines := SavedLines(model);
      SavedLinesSnoc(model);
      RulesOfSavedLines(init);
      RuleLineKept(model[n - 1]);
      RulesKeep(lines, model[n - 1]);
    }
  }

  /**
   * A model file written by the trainer's `saveModel` gives the header exactly the trained rules, when
   * no replacement holds a tab and no pattern starts with `/`.
   */
  lemma SavedModelHeader(model: seq<Rule>)
    requires forall k :: 0 <= k < |model| ==>
      ModelTrainer.WellFormed(model[k]) && '\t' !in model[k].1 && model[k].0[0] != '/'
    ensures Rules(FileLines(Collector.ReadText(Terminated(ModelTrainer.RuleLines(model))))) == model
  {
    var lines := ModelTrainer.RuleLines(model);
    forall k | 0 <= k < |lines| ensures '\n' !in lines[k] && '\r' !in lines[k] {
      assert lines[k] == model[k].0 + "\t" + model[k].1;
      assert forall i :: 0 <= i < |model[k].0| ==> lines[k][i] == model[k].0[i];
      assert forall i :: 0 <= i < |model[k].1| ==> lines[k][|model[k].0| + 1 + i] == model[k].1[i];
    }
    TerminatedExcludes(lines, '\r');
    Collector.ReadTextPlain(Terminated(lines));
    FileLinesTerminated(lines);
    assert seq(|lines|, i requires 0 <= i < |lines| => lines[i] + "\n") == SavedLines(model);
    RulesOfSavedLines(model);
  }

  /** A rule line with an empty replacement (`pattern<TAB>`) loses its tab to `strip` and is skipped. */
  lemma DeletionRuleDropped(pattern: String)
    requires pattern != [] && !IsSpace(pattern[0]) && !IsSpace(pattern[|pattern| - 1]) && '\t' !in pattern
    ensures HeaderRule(pattern + "\t" + "\n") == None
  {
    assert pattern + "\t" + "\n" == pattern + "\t\n";
    StripTrailing(pattern, "\t\n");
    assert Find(pattern, '\t').None?;
  }
}
