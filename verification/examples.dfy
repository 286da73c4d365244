/**
 * Worked cases of the pattern builder: the value list of text written one
 * trimmed value per line, the pattern of plain values given one per line,
 * and the patterns of three small inputs (an upper-cased value, a value in
 * word boundaries, and an exact match over padded lines holding a bar
 * character).
 */
module RegexExamples {

  import opened Strings
  import opened Casing
  import opened Escaping
  import opened RegexGenerator

  /** Trimmed values are kept as they are by `CleanLines`. */
  lemma {:induction false} CleanLinesTrimmed(lines: seq<String>)
    requires forall k :: 0 <= k < |lines| ==> Trimmed(lines[k])
    ensures CleanLines(lines) == lines
  {
    if lines != [] {
      assert Trimmed(lines[0]);
      assert forall k :: 0 <= k < |lines[1..]| ==> Trimmed(lines[1..][k]);
      CleanLinesTrimmed(lines[1..]);
      CleanLinesTrimmedFirst(lines);
    }
  }

  lemma CleanLinesTrimmedFirst(lines: seq<String>)
    requires lines != [] && Trimmed(lines[0])
    requires CleanLines(lines[1..]) == lines[1..]
    ensures CleanLines(lines) == lines
  {
    var l0 := lines[0];
    StripUnpadded(l0);
    assert !AllSpace(l0) by { assert !IsSpace(l0[0]); }
    CleanLinesFirst(lines);
    assert [l0] + lines[1..] == lines;
  }

  /** Text holding one trimmed value per line has exactly those values, in order. */
  lemma ValuesOfLines(lines: seq<String>)
    requires |lines| >= 1
    requires forall k :: 0 <= k < |lines| ==> Trimmed(lines[k]) && '\n' !in lines[k]
    ensures Values(Join(lines, '\n')) == lines
  {
    SplitJoin(lines, '\n');
    CleanLinesTrimmed(lines);
  }

  /** Plain values with no case transform and no word boundary are their own pieces. */
  lemma PlainAlternation(lines: seq<String>, caseTransform: String)
    requires forall k :: 0 <= k < |lines| ==> Plain(lines[k])
    requires caseTransform != "upper" && caseTransform != "lower"
    ensures Alternation(lines, caseTransform, false) == Join(lines, '|')
  {
    assert ApplyCase(lines, caseTransform) == lines;
    forall k | 0 <= k < |lines| ensures Escape(lines[k]) == lines[k] {
      EscapePlain(lines[k]);
    }
    assert EscapeAll(lines) == lines;
    assert Process(lines, false) == lines;
  }

  /**
   * Plain values, one per line, with no case transform and no word boundary:
   * the pattern is the anchored `|`-join of the values themselves.
   */
  lemma PlainList(lines: seq<String>, matchType: String, caseTransform: String)
    requires |lines| >= 1
    requires forall k :: 0 <= k < |lines| ==> Trimmed(lines[k]) && '\n' !in lines[k] && Plain(lines[k])
    requires caseTransform != "upper" && caseTransform != "lower"
    ensures ConvertToRegex(Join(lines, '\n'), matchType, caseTransform, false) == Anchor(Join(lines, '|'), matchType)
  {
    var input := Join(lines, '\n');
    ValuesOfLines(lines);
    PlainAlternation(lines, caseTransform);
    ConvertAnchored(input, matchType, caseTransform, false);
  }

  /** One trimmed line is its own value list. */
  lemma OneLineValues(v: String)
    requires Trimmed(v) && '\n' !in v
    ensures Values(v) == [v]
  {
    assert Join([v], '\n') == v;
    ValuesOfLines([v]);
  }

  /** `"contains"` leaves the alternation bare. */
  lemma ContainsBare(j: String)
    ensures Anchor(j, "contains") == j
  {
  }

  /** `"none"` leaves every value unchanged. */
  lemma NoneKeeps(values: seq<String>)
    ensures ApplyCase(values, "none") == values
  {
  }

  /**
   * One line, upper-cased, unanchored, without word boundaries: the pattern
   * is the upper-cased line, when upper-casing leaves it plain.
   */
  lemma UpperOne(v: String)
    requires Trimmed(v) && '\n' !in v && Plain(Upper(v))
    ensures ConvertToRegex(v, "contains", "upper", false) == Upper(v)
  {
    OneLineValues(v);
    ConvertAnchored(v, "contains", "upper", false);
    UpperOneCase(v);
    PlainOne(Upper(v));
    ContainsBare(Upper(v));
  }

  lemma UpperOneCase(v: String)
    ensures ApplyCase([v], "upper") == [Upper(v)]
  {
  }

  /** A plain value escapes to itself. */
  lemma PlainOne(v: String)
    requires Plain(v)
    ensures EscapeAll([v]) == [v]
  {
    EscapePlain(v);
  }

  /** `Cat`, upper-cased and unanchored, gives `CAT`. */
  lemma UpperContains()
    ensures ConvertToRegex("Cat", "contains", "upper", false) == "CAT"
  {
    assert Upper("Cat") == "CAT";
    UpperOne("Cat");
  }

  /**
   * One plain line with word boundaries, unanchored: the pattern is the line
   * inside `\b ... \b`.
   */
  lemma BoundaryOne(v: String)
    requires Trimmed(v) && '\n' !in v && Plain(v)
    ensures ConvertToRegex(v, "contains", "none", true) == Boundary + v + Boundary
  {
    OneLineValues(v);
    ConvertAnchored(v, "contains", "none", true);
    NoneKeeps([v]);
    PlainOne(v);
    assert Process([v], true) == [Wrap(v, true)];
    ContainsBare(Boundary + v + Boundary);
  }

  /** `cat` with word boundaries, unanchored, gives `\bcat\b`. */
  lemma BoundaryContains()
    ensures ConvertToRegex("cat", "contains", "none", true) == "\\bcat\\b"
  {
    BoundaryOne("cat");
    CatWrapped();
  }

  lemma CatWrapped()
    ensures Boundary + "cat" + Boundary == "\\bcat\\b"
  {
  }

  lemma StripSpaced(v: String)
    requires Trimmed(v)
    ensures Strip([' '] + v + [' ']) == v
  {
    StripPadded([' '], v, [' ']);
    StripUnpadded(v);
  }

  /** Two space-padded lines with a blank line between them give the two values. */
  lemma PaddedValues(a: String, c: String)
    requires Trimmed(a) && Trimmed(c) && '\n' !in a && '\n' !in c
    ensures Values([' '] + a + [' ', '\n', '\n', ' '] + c + [' ']) == [a, c]
  {
    var lines := [[' '] + a + [' '], [], [' '] + c + [' ']];
    assert Join(lines[2..], '\n') == lines[2];
    assert Join(lines[1..], '\n') == ['\n'] + lines[2];
    assert Join(lines, '\n') == [' '] + a + [' ', '\n', '\n', ' '] + c + [' '];
    SplitJoin(lines, '\n');
    StripSpaced(a);
    StripSpaced(c);
    CleanLinesFirst(lines);
    CleanLinesFirst(lines[1..]);
    CleanLinesFirst(lines[2..]);
  }

  /** The bar character is escaped; the letters are not. */
  lemma EscapeBar()
    ensures Escape("a|b") == "a\\|b"
  {
    EscapePlain("b");
    assert "|b"[1..] == "b";
    assert Escape("|b") == "\\|b";
    assert "a|b"[1..] == "|b";
  }

  lemma EscapeTwo(a: String, b: String)
    ensures EscapeAll([a, b]) == [Escape(a), Escape(b)]
  {
    var e := EscapeAll([a, b]);
    assert e[0] == Escape(a) by { EscapeIff(e[0], a); }
    assert e[1] == Escape(b) by { EscapeIff(e[1], b); }
  }

  lemma WrapTwo(ea: String, eb: String)
    ensures Process([ea, eb], true) == [Wrap(ea, true), Wrap(eb, true)]
  {
    var p := Process([ea, eb], true);
    assert p[0] == Wrap(ea, true) by { WrapIff(p[0], ea, true); }
    assert p[1] == Wrap(eb, true) by { WrapIff(p[1], eb, true); }
  }

  /** Two values with word boundaries: each escaped value wrapped, joined with the bar character. */
  lemma BoundaryTwo(a: String, b: String)
    ensures Alternation([a, b], "none", true) == Wrap(Escape(a), true) + ['|'] + Wrap(Escape(b), true)
  {
    NoneKeeps([a, b]);
    EscapeTwo(a, b);
    WrapTwo(Escape(a), Escape(b));
    var p, q := Wrap(Escape(a), true), Wrap(Escape(b), true);
    assert Join([p, q], '|') == p + ['|'] + Join([q], '|');
  }

  /** `"exact"` puts the alternation in a group anchored at both ends. */
  lemma ExactGroup(j: String)
    ensures Anchor(j, "exact") == "^(?:" + j + ")$"
  {
  }

  /** Two values with word boundaries and an exact match. */
  lemma BoundaryExactTwo(input: String, a: String, b: String)
    requires Values(input) == [a, b]
    ensures ConvertToRegex(input, "exact", "none", true)
            == "^(?:" + (Wrap(Escape(a), true) + ['|'] + Wrap(Escape(b), true)) + ")$"
  {
    ConvertAnchored(input, "exact", "none", true);
    BoundaryTwo(a, b);
    ExactGroup(Wrap(Escape(a), true) + ['|'] + Wrap(Escape(b), true));
  }

  /**
   * An exact match over space-padded lines with a blank line between them
   * and a bar character inside a value: the bar is escaped, every value is
   * wrapped in word boundaries, and the group is anchored at both ends.
   */
  lemma BoundaryExact()
    ensures ConvertToRegex(" a|b \n\n c ", "exact", "none", true) == "^(?:\\ba\\|b\\b|\\bc\\b)$"
  {
    PaddedExampleValues();
    BoundaryExactTwo(" a|b \n\n c ", "a|b", "c");
    BarGroup();
  }

  lemma PaddedExampleValues()
    ensures Values(" a|b \n\n c ") == ["a|b", "c"]
  {
    PaddedText();
    PaddedValues("a|b", "c");
  }

  lemma PaddedText()
    ensures [' '] + "a|b" + [' ', '\n', '\n', ' '] + "c" + [' '] == " a|b \n\n c "
  {
  }

  lemma BarGroup()
    ensures "^(?:" + (Wrap(Escape("a|b"), true) + ['|'] + Wrap(Escape("c"), true)) + ")$"
            == "^(?:\\ba\\|b\\b|\\bc\\b)$"
  {
    EscapeBar();
    EscapePlain("c");
  }
}
