/**
 * The pattern builder: turns a block of text holding one literal value per
 * line into one regular expression that matches any of the values.
 *
 *   1. split the text on '\n', strip every line, keep the non-blank ones;
 *   2. upper- or lower-case every value ("upper", "lower"; anything else
 *      keeps the values as they are);
 *   3. escape every value;
 *   4. optionally wrap every escaped value in `\b ... \b`;
 *   5. join the pieces with `|`;
 *   6. anchor by match type: "exact", "startsWith", "endsWith"; anything
 *      else, "contains" included, leaves the alternation as it is.
 *
 * Text whose every character is whitespace gives the empty pattern.
 * `Recover` reads a pattern back into its values, and is the partner
 * against which the builder is proved.
 */
module RegexGenerator {

  import opened Strings
  import opened Casing
  import opened Escaping

  // ---------------------------------------------------------------------------
  // Step 1: the value list
  // ---------------------------------------------------------------------------

  /** The stripped lines that are not blank, in their original order. */
  function CleanLines(lines: seq<String>): (values: seq<String>)
    ensures |values| <= |lines|
    ensures forall k :: 0 <= k < |values| ==> Trimmed(values[k])
  {
    if lines == [] then []
    else
      var v := Strip(lines[0]);
      (if v == [] then [] else [v]) + CleanLines(lines[1..])
  }

  /**
   * The value list of an input text: empty exactly when the text is all
   * whitespace, and every value trimmed.
   */
  function Values(input: String): (values: seq<String>)
    ensures values == [] <==> AllSpace(input)
    ensures forall k :: 0 <= k < |values| ==> Trimmed(values[k])
  {
    CleanLinesEmpty(Split(input, '\n'));
    SplitBlank(input);
    CleanLines(Split(input, '\n'))
  }

  /** The positions of the non-blank lines, in increasing order. */
  function NonBlank(lines: seq<String>): (ix: seq<nat>)
    ensures forall k :: 0 <= k < |ix| ==> ix[k] < |lines| && !AllSpace(lines[ix[k]])
    ensures forall k, m :: 0 <= k < m < |ix| ==> ix[k] < ix[m]
  {
    NonBlankFrom(lines, 0)
  }

  /** The positions from `i` on of the non-blank lines, in increasing order. */
  function NonBlankFrom(lines: seq<String>, i: nat): (ix: seq<nat>)
    requires i <= |lines|
    ensures forall k :: 0 <= k < |ix| ==> i <= ix[k] < |lines| && !AllSpace(lines[ix[k]])
    ensures forall k, m :: 0 <= k < m < |ix| ==> ix[k] < ix[m]
    decreases |lines| - i
  {
    if i == |lines| then []
    else (if AllSpace(lines[i]) then [] else [i]) + NonBlankFrom(lines, i + 1)
  }

  /** Every non-blank line has its position listed. */
  lemma NonBlankComplete(lines: seq<String>, i: nat)
    requires i < |lines| && !AllSpace(lines[i])
    ensures i in NonBlank(lines)
  {
    NonBlankFromComplete(lines, 0, i);
  }

  lemma {:induction false} NonBlankFromComplete(lines: seq<String>, i: nat, j: nat)
    requires i <= j < |lines| && !AllSpace(lines[j])
    ensures j in NonBlankFrom(lines, i)
    decreases j - i
  {
    if i < j {
      NonBlankFromComplete(lines, i + 1, j);
    }
  }

  /** The k-th value is the stripped line at the k-th non-blank position. */
  lemma CleanLinesInOrder(lines: seq<String>)
    ensures |CleanLines(lines)| == |NonBlank(lines)|
    ensures forall k :: 0 <= k < |NonBlank(lines)| ==>
              CleanLines(lines)[k] == Strip(lines[NonBlank(lines)[k]])
  {
    CleanLinesFromInOrder(lines, 0);
    assert lines[0..] == lines;
  }

  lemma {:induction false} CleanLinesFromInOrder(lines: seq<String>, i: nat)
    requires i <= |lines|
    ensures |CleanLines(lines[i..])| == |NonBlankFrom(lines, i)|
    ensures forall k :: 0 <= k < |NonBlankFrom(lines, i)| ==>
              CleanLines(lines[i..])[k] == Strip(lines[NonBlankFrom(lines, i)[k]])
    decreases |lines| - i
  {
    if i < |lines| {
      CleanLinesFromInOrder(lines, i + 1);
      var ls := lines[i..];
      CleanLinesFirst(ls);
      assert ls[0] == lines[i] && ls[1..] == lines[i + 1..];
      var tail := CleanLines(lines[i + 1..]);
      var rest := NonBlankFrom(lines, i + 1);
      var ix := NonBlankFrom(lines, i);
      var values := CleanLines(ls);
      var d := if AllSpace(lines[i]) then 0 else 1;
      assert values == (if d == 0 then [] else [Strip(lines[i])]) + tail;
      assert ix == (if d == 0 then [] else [i]) + rest;
      forall k | 0 <= k < |ix| ensures values[k] == Strip(lines[ix[k]]) {
        if k >= d {
          assert values[k] == tail[k - d];
          assert ix[k] == rest[k - d];
        }
      }
    }
  }

  predicate AllBlank(lines: seq<String>) {
    forall k :: 0 <= k < |lines| ==> AllSpace(lines[k])
  }

  /** No values at all exactly when every line is blank. */
  lemma {:induction false} CleanLinesEmpty(lines: seq<String>)
    ensures CleanLines(lines) == [] <==> AllBlank(lines)
  {
    if lines != [] {
      CleanLinesEmpty(lines[1..]);
      assert Strip(lines[0]) == [] <==> AllSpace(lines[0]);
      if forall k :: 1 <= k < |lines| ==> AllSpace(lines[k]) {
        forall k | 0 <= k < |lines[1..]| ensures AllSpace(lines[1..][k]) {
          assert lines[1..][k] == lines[k + 1];
        }
      } else {
        var k :| 1 <= k < |lines| && !AllSpace(lines[k]);
        assert lines[1..][k - 1] == lines[k];
      }
    }
  }

  /** The text is all whitespace exactly when every one of its lines is. */
  lemma {:induction false} SplitBlank(s: String)
    ensures AllSpace(s) <==> AllBlank(Split(s, '\n'))
  {
    if s != [] {
      var lines := Split(s, '\n');
      var rest := Split(s[1..], '\n');
      SplitBlank(s[1..]);
      assert s == [s[0]] + s[1..];
      AllSpaceAppend([s[0]], s[1..]);
      assert AllSpace([s[0]]) <==> IsSpace(s[0]);
      if s[0] == '\n' {
        assert lines == [[]] + rest;
        AllBlankCons([], rest);
      } else {
        assert lines == [[s[0]] + rest[0]] + rest[1..];
        AllBlankCons([s[0]] + rest[0], rest[1..]);
        AllSpaceAppend([s[0]], rest[0]);
        assert rest == [rest[0]] + rest[1..];
        AllBlankCons(rest[0], rest[1..]);
      }
    }
  }

  lemma AllBlankCons(line: String, rest: seq<String>)
    ensures AllBlank([line] + rest) <==> AllSpace(line) && AllBlank(rest)
  {
    var lines := [line] + rest;
    assert lines[0] == line;
    assert forall k :: 0 <= k < |rest| ==> lines[k + 1] == rest[k];
  }

  // ---------------------------------------------------------------------------
  // Step 2: case transformation
  // ---------------------------------------------------------------------------

  /**
   * `caseTransform` "upper" upper-cases every value, "lower" lower-cases every
   * value, anything else leaves the values alone. The list keeps its length
   * and every value its length, and trimmed values stay trimmed.
   */
  function ApplyCase(values: seq<String>, caseTransform: String): (cased: seq<String>)
    ensures |cased| == |values|
    ensures forall k :: 0 <= k < |values| ==> |cased[k]| == |values[k]|
    ensures forall k :: 0 <= k < |values| ==>
              cased[k] == (if caseTransform == "upper" then Upper(values[k])
                           else if caseTransform == "lower" then Lower(values[k])
                           else values[k])
    ensures forall k :: 0 <= k < |values| && Trimmed(values[k]) ==> Trimmed(cased[k])
  {
    if caseTransform == "upper" then
      seq(|values|, k requires 0 <= k < |values| => Upper(values[k]))
    else if caseTransform == "lower" then
      seq(|values|, k requires 0 <= k < |values| => Lower(values[k]))
    else
      values
  }

  /**
   * The k-th transformed value is the case image of the k-th non-blank line of
   * the input, stripped; the transform never changes the number of values.
   */
  lemma CasedValuesInOrder(input: String, caseTransform: String)
    ensures var lines := Split(input, '\n'); var ix := NonBlank(lines);
      var cased := ApplyCase(Values(input), caseTransform);
      |cased| == |ix|
      && forall k :: 0 <= k < |ix| ==>
           cased[k] == (if caseTransform == "upper" then Upper(Strip(lines[ix[k]]))
                        else if caseTransform == "lower" then Lower(Strip(lines[ix[k]]))
                        else Strip(lines[ix[k]]))
  {
    CleanLinesInOrder(Split(input, '\n'));
  }

  // ---------------------------------------------------------------------------
  // Steps 3 and 4: escaping and word boundaries
  // ---------------------------------------------------------------------------

  /** The word-boundary assertion `\b`. */
  const Boundary: String := ['\\', 'b']

  /** Every value escaped; escaping never shortens a value and leaves no `|` bare. */
  function EscapeAll(values: seq<String>): (escaped: seq<String>)
    ensures |escaped| == |values|
    ensures forall k :: 0 <= k < |values| ==>
              Unescape(escaped[k]) == Some(values[k]) && |escaped[k]| >= |values[k]| && BarFree(escaped[k])
  {
    var escaped := seq(|values|, k requires 0 <= k < |values| => Escape(values[k]));
    assert forall k :: 0 <= k < |values| ==> Unescape(escaped[k]) == Some(values[k]) && BarFree(escaped[k]) by {
      forall k | 0 <= k < |values| ensures Unescape(escaped[k]) == Some(values[k]) && BarFree(escaped[k]) {
        UnescapeEscape(values[k]);
        EscapeBarFree(values[k]);
      }
    }
    escaped
  }

  /** One piece: the escaped value, inside `\b ... \b` when word boundaries are on. */
  function Wrap(escaped: String, wordBoundary: bool): (piece: String)
    ensures Unwrap(piece, wordBoundary) == Some(escaped)
  {
    if wordBoundary then Boundary + escaped + Boundary else escaped
  }

  /** Removes the word-boundary markers when they are expected. */
  function Unwrap(piece: String, wordBoundary: bool): Option<String>
  {
    if !wordBoundary then Some(piece)
    else if |piece| >= 4 && piece[..2] == Boundary && piece[|piece| - 2..] == Boundary then
      Some(piece[2..|piece| - 2])
    else None
  }

  /** `Unwrap` accepts exactly the wrapped pieces and gives back what was wrapped. */
  lemma WrapIff(piece: String, escaped: String, wordBoundary: bool)
    ensures Unwrap(piece, wordBoundary) == Some(escaped) <==> Wrap(escaped, wordBoundary) == piece
  {
    if wordBoundary && Unwrap(piece, wordBoundary) == Some(escaped) {
      var n := |piece|;
      assert piece == piece[..2] + piece[2..n - 2] + piece[n - 2..];
    }
  }

  /**
   * With `wordBoundary` every escaped value is wrapped in `\b ... \b`,
   * otherwise the pieces are the escaped values. The markers are added after
   * escaping, so `Unwrap` gives back exactly the escaped value, and wrapping
   * leaves no `|` bare.
   */
  function Process(escaped: seq<String>, wordBoundary: bool): (pieces: seq<String>)
    ensures |pieces| == |escaped|
    ensures forall k :: 0 <= k < |escaped| ==>
              Unwrap(pieces[k], wordBoundary) == Some(escaped[k]) && |pieces[k]| >= |escaped[k]|
    ensures forall k :: 0 <= k < |escaped| && BarFree(escaped[k]) ==> BarFree(pieces[k])
  {
    if wordBoundary then
      var pieces := seq(|escaped|, k requires 0 <= k < |escaped| => Wrap(escaped[k], true));
      assert forall k :: 0 <= k < |escaped| && BarFree(escaped[k]) ==> BarFree(pieces[k]) by {
        forall k | 0 <= k < |escaped| && BarFree(escaped[k]) ensures BarFree(pieces[k]) {
          assert BarFree(Boundary) by { assert Boundary[2..] == []; }
          BarFreeAppend(Boundary, escaped[k]);
          BarFreeAppend(Boundary + escaped[k], Boundary);
        }
      }
      assert forall k :: 0 <= k < |escaped| ==> pieces[k][2..|pieces[k]| - 2] == escaped[k];
      pieces
    else
      escaped
  }

  // ---------------------------------------------------------------------------
  // Step 5: alternation, and reading it back
  // ---------------------------------------------------------------------------

  /**
   * Cuts a text at every `|` that is not escaped, reading `\` together with the
   * character after it.
   */
  function SplitAlternatives(j: String): (pieces: seq<String>)
    ensures |pieces| >= 1
  {
    if j == [] then [[]]
    else if j[0] == '\\' && |j| >= 2 then
      var rest := SplitAlternatives(j[2..]);
      [j[..2] + rest[0]] + rest[1..]
    else if j[0] == '|' then
      [[]] + SplitAlternatives(j[1..])
    else
      var rest := SplitAlternatives(j[1..]);
      [[j[0]] + rest[0]] + rest[1..]
  }

  /** Splitting `p + u`, where `p` has no bare `|`, extends the first piece of `u`'s split. */
  lemma {:induction false} SplitAlternativesPrefix(p: String, u: String)
    requires BarFree(p)
    ensures SplitAlternatives(p + u) == [p + SplitAlternatives(u)[0]] + SplitAlternatives(u)[1..]
  {
    var su := SplitAlternatives(u);
    if p == [] {
      assert p + u == u;
      assert p + su[0] == su[0];
      assert su == [su[0]] + su[1..];
    } else if p[0] == '\\' {
      var h, t := p[..2], p[2..];
      assert p == h + t;
      SplitAlternativesPrefix(t, u);
      TokenPrefix(h, t, u, su);
    } else {
      var h, t := [p[0]], p[1..];
      assert p == h + t && p[0] != '|';
      SplitAlternativesPrefix(t, u);
      TokenPrefix(h, t, u, su);
    }
  }

  /** One step of `SplitAlternativesPrefix`: the token `h` joins the first piece. */
  lemma TokenPrefix(h: String, t: String, u: String, su: seq<String>)
    requires (|h| == 2 && h[0] == '\\') || (|h| == 1 && h[0] != '\\' && h[0] != '|')
    requires |su| >= 1
    requires SplitAlternatives(t + u) == [t + su[0]] + su[1..]
    ensures SplitAlternatives(h + t + u) == [h + t + su[0]] + su[1..]
  {
    var j := h + (t + u);
    assert h + t + u == j;
    assert h + t + su[0] == h + (t + su[0]);
    if |h| == 2 {
      EscapedTokenStep(h, t + u);
    } else {
      CharTokenStep(h, t + u);
    }
  }

  lemma EscapedTokenStep(h: String, v: String)
    requires |h| == 2 && h[0] == '\\'
    ensures var r := SplitAlternatives(v); SplitAlternatives(h + v) == [h + r[0]] + r[1..]
  {
    var j := h + v;
    assert j[0] == '\\' && j[..2] == h && j[2..] == v;
  }

  lemma CharTokenStep(h: String, v: String)
    requires |h| == 1 && h[0] != '\\' && h[0] != '|'
    ensures var r := SplitAlternatives(v); SplitAlternatives(h + v) == [h + r[0]] + r[1..]
  {
    var j := h + v;
    assert j[0] == h[0] && j[1..] == v && [j[0]] == h;
  }

  /** Pieces with no bare `|`, joined with `|`, split back into the same pieces. */
  lemma {:induction false} SplitJoinAlternatives(pieces: seq<String>)
    requires |pieces| >= 1
    requires forall k :: 0 <= k < |pieces| ==> BarFree(pieces[k])
    ensures SplitAlternatives(Join(pieces, '|')) == pieces
  {
    if |pieces| == 1 {
      SplitAlternativesPrefix(pieces[0], []);
      assert pieces[0] + [] == pieces[0];
    } else {
      var tail := Join(pieces[1..], '|');
      SplitJoinAlternatives(pieces[1..]);
      assert Join(pieces, '|') == pieces[0] + (['|'] + tail);
      SplitAlternativesPrefix(pieces[0], ['|'] + tail);
      var st := SplitAlternatives(['|'] + tail);
      assert (['|'] + tail)[0] == '|';
      assert (['|'] + tail)[1..] == tail;
      assert st == [[]] + pieces[1..];
      assert st[0] == [] && st[1..] == pieces[1..];
      assert pieces[0] + [] == pieces[0];
      assert [pieces[0]] + pieces[1..] == pieces;
    }
  }

  /** Joining the pieces of a split with `|` gives back the text. */
  lemma {:induction false} JoinSplitAlternatives(j: String)
    ensures Join(SplitAlternatives(j), '|') == j
  {
    if j != [] {
      if j[0] == '\\' && |j| >= 2 {
        JoinSplitAlternatives(j[2..]);
        JoinExtendFirst(j[..2], SplitAlternatives(j[2..]), '|');
        assert j == j[..2] + j[2..];
      } else if j[0] == '|' {
        JoinSplitAlternatives(j[1..]);
        JoinConsEmpty(SplitAlternatives(j[1..]), '|');
        assert j == ['|'] + j[1..];
      } else {
        JoinSplitAlternatives(j[1..]);
        JoinExtendFirst([j[0]], SplitAlternatives(j[1..]), '|');
        assert j == [j[0]] + j[1..];
      }
    }
  }

  // ---------------------------------------------------------------------------
  // Step 6: anchors
  // ---------------------------------------------------------------------------

  /** The match type's anchors around the alternation `j`. */
  function Anchor(j: String, matchType: String): (pattern: String)
    ensures |pattern| >= |j|
  {
    if matchType == "exact" then "^(?:" + j + ")$"
    else if matchType == "startsWith" then "^(?:" + j + ")"
    else if matchType == "endsWith" then "(?:" + j + ")$"
    else j
  }

  /** Takes the match type's anchors off a pattern, if it has them. */
  function Unanchor(pattern: String, matchType: String): Option<String>
  {
    var n := |pattern|;
    if matchType == "exact" then
      if n >= 6 && pattern[..4] == "^(?:" && pattern[n - 2..] == ")$" then Some(pattern[4..n - 2]) else None
    else if matchType == "startsWith" then
      if n >= 5 && pattern[..4] == "^(?:" && pattern[n - 1..] == ")" then Some(pattern[4..n - 1]) else None
    else if matchType == "endsWith" then
      if n >= 5 && pattern[..3] == "(?:" && pattern[n - 2..] == ")$" then Some(pattern[3..n - 2]) else None
    else
      Some(pattern)
  }

  /** `Unanchor` accepts exactly the anchored patterns: the two are inverse. */
  lemma AnchorIff(pattern: String, j: String, matchType: String)
    ensures Unanchor(pattern, matchType) == Some(j) <==> Anchor(j, matchType) == pattern
  {
    var n := |pattern|;
    if Unanchor(pattern, matchType) == Some(j) {
      if matchType == "exact" {
        assert pattern == pattern[..4] + pattern[4..n - 2] + pattern[n - 2..];
      } else if matchType == "startsWith" {
        assert pattern == pattern[..4] + pattern[4..n - 1] + pattern[n - 1..];
      } else if matchType == "endsWith" {
        assert pattern == pattern[..3] + pattern[3..n - 2] + pattern[n - 2..];
      }
    }
  }

  // ---------------------------------------------------------------------------
  // The whole transform
  // ---------------------------------------------------------------------------

  /** Steps 1 to 5: the alternation of the processed pieces. */
  function Alternation(values: seq<String>, caseTransform: String, wordBoundary: bool): String
  {
    Join(Process(EscapeAll(ApplyCase(values, caseTransform)), wordBoundary), '|')
  }

  /**
   * `convert_to_regex`. The pattern is empty exactly when the input is all
   * whitespace, that is, when it has no non-blank line.
   */
  function ConvertToRegex(input: String, matchType: String, caseTransform: String, wordBoundary: bool): (pattern: String)
    ensures pattern == [] <==> AllSpace(input)
    ensures pattern == [] <==> Values(input) == []
  {
    if Strip(input) == [] then []
    else
      var values := Values(input);
      var cased := ApplyCase(values, caseTransform);
      var escaped := EscapeAll(cased);
      var pieces := Process(escaped, wordBoundary);
      assert |pieces[0]| > 0;
      Anchor(Join(pieces, '|'), matchType)
  }

  /** A non-blank input gives the anchored alternation of its values. */
  lemma ConvertAnchored(input: String, matchType: String, caseTransform: String, wordBoundary: bool)
    requires !AllSpace(input)
    ensures ConvertToRegex(input, matchType, caseTransform, wordBoundary)
            == Anchor(Alternation(Values(input), caseTransform, wordBoundary), matchType)
  {
  }

  /** Reads the processed pieces back into values. */
  function DecodePieces(pieces: seq<String>, wordBoundary: bool): (values: Option<seq<String>>)
    ensures values.Some? ==> |values.value| == |pieces|
  {
    if pieces == [] then Some([])
    else
      match Unwrap(pieces[0], wordBoundary)
      case None => None
      case Some(e) =>
        match Unescape(e)
        case None => None
        case Some(v) =>
          match DecodePieces(pieces[1..], wordBoundary)
          case None => None
          case Some(vs) => Some([v] + vs)
  }

  /** Reads a pattern built with the given options back into its values. */
  function Recover(pattern: String, matchType: String, wordBoundary: bool): Option<seq<String>>
  {
    if pattern == [] then Some([])
    else
      match Unanchor(pattern, matchType)
      case None => None
      case Some(j) => DecodePieces(SplitAlternatives(j), wordBoundary)
  }

  /** Decoding the escaped and processed values gives the values back. */
  lemma {:induction false} DecodeProcess(values: seq<String>, wordBoundary: bool)
    ensures DecodePieces(Process(EscapeAll(values), wordBoundary), wordBoundary) == Some(values)
  {
    if values != [] {
      var escaped := EscapeAll(values);
      var pieces := Process(escaped, wordBoundary);
      DecodeProcess(values[1..], wordBoundary);
      assert EscapeAll(values[1..]) == escaped[1..];
      assert Process(escaped[1..], wordBoundary) == pieces[1..];
      assert Unwrap(pieces[0], wordBoundary) == Some(escaped[0]);
      assert Unescape(escaped[0]) == Some(values[0]);
      assert [values[0]] + values[1..] == values;
    }
  }

  /**
   * The pattern determines the case-transformed values: reading it back with
   * the options it was built with gives exactly them, in input order.
   */
  lemma RecoverConvert(input: String, matchType: String, caseTransform: String, wordBoundary: bool)
    ensures Recover(ConvertToRegex(input, matchType, caseTransform, wordBoundary), matchType, wordBoundary)
            == Some(ApplyCase(Values(input), caseTransform))
  {
    if !AllSpace(input) {
      var values := Values(input);
      var cased := ApplyCase(values, caseTransform);
      var escaped := EscapeAll(cased);
      var pieces := Process(escaped, wordBoundary);
      AnchorIff(ConvertToRegex(input, matchType, caseTransform, wordBoundary), Join(pieces, '|'), matchType);
      SplitJoinAlternatives(pieces);
      DecodeProcess(cased, wordBoundary);
    }
  }

  // ---------------------------------------------------------------------------
  // The anchors are told apart by the pattern's two ends
  // ---------------------------------------------------------------------------

  /** A piece that starts with no bare special character and ends with no bare `$`. */
  predicate PlainEdges(q: String) {
    q != [] && (q[0] == '\\' || !IsSpecial(q[0])) && (q[|q| - 1] == '$' ==> |q| >= 2 && q[|q| - 2] == '\\')
  }

  lemma PiecesEdges(values: seq<String>, wordBoundary: bool)
    requires forall k :: 0 <= k < |values| ==> values[k] != []
    ensures forall k :: 0 <= k < |values| ==> PlainEdges(Process(EscapeAll(values), wordBoundary)[k])
  {
    var escaped := EscapeAll(values);
    var pieces := Process(escaped, wordBoundary);
    forall k | 0 <= k < |values| ensures PlainEdges(pieces[k]) {
      EscapeEdges(values[k]);
      assert escaped[k] == Escape(values[k]);
      if wordBoundary {
        var q := pieces[k];
        assert q == Boundary + escaped[k] + Boundary;
        assert q[0] == '\\' && q[|q| - 1] == 'b';
      }
    }
  }

  predicate EndsWithGroupClose(p: String) {
    |p| >= 2 && p[|p| - 2] == ')' && p[|p| - 1] == '$'
  }

  /** Neither anchor nor group can be mistaken for the alternation's own ends. */
  predicate BareEnds(j: String) {
    j != [] && j[0] != '^' && j[0] != '(' && !EndsWithGroupClose(j)
  }

  lemma JoinEnds(pieces: seq<String>)
    requires pieces != []
    requires forall k :: 0 <= k < |pieces| ==> PlainEdges(pieces[k])
    ensures BareEnds(Join(pieces, '|'))
  {
    JoinStart(pieces);
    JoinEnd(pieces);
  }

  lemma JoinStart(pieces: seq<String>)
    requires pieces != [] && PlainEdges(pieces[0])
    ensures var j := Join(pieces, '|'); j != [] && j[0] != '^' && j[0] != '('
  {
    var j := Join(pieces, '|');
    var q0 := pieces[0];
    JoinFirst(pieces, '|');
    assert j[0] == j[..|q0|][0];
    NotBareSpecial(q0[0]);
  }

  lemma JoinEnd(pieces: seq<String>)
    requires pieces != [] && PlainEdges(pieces[|pieces| - 1])
    ensures !EndsWithGroupClose(Join(pieces, '|'))
  {
    JoinLast(pieces, '|');
    SuffixEnds(Join(pieces, '|'), pieces[|pieces| - 1]);
  }

  /** A text that ends with a piece whose `$` is escaped does not end with `)$`. */
  lemma SuffixEnds(j: String, q: String)
    requires PlainEdges(q) && |q| <= |j| && j[|j| - |q|..] == q
    ensures !EndsWithGroupClose(j)
  {
    var n := |j| - |q|;
    assert j[|j| - 1] == j[n..][|q| - 1];
    if |q| >= 2 {
      assert j[|j| - 2] == j[n..][|q| - 2];
    }
  }

  lemma NotBareSpecial(c: char)
    requires c == '\\' || !IsSpecial(c)
    ensures c != '^' && c != '('
  {
  }

  lemma AlternationEnds(values: seq<String>, caseTransform: String, wordBoundary: bool)
    requires values != []
    requires forall k :: 0 <= k < |values| ==> Trimmed(values[k])
    ensures BareEnds(Alternation(values, caseTransform, wordBoundary))
  {
    var cased := ApplyCase(values, caseTransform);
    PiecesEdges(cased, wordBoundary);
    JoinEnds(Process(EscapeAll(cased), wordBoundary));
  }

  lemma AnchorEnds(j: String, matchType: String)
    requires BareEnds(j)
    ensures var p := Anchor(j, matchType);
      p != []
      && (p[0] == '^' <==> matchType == "exact" || matchType == "startsWith")
      && (p[0] == '(' <==> matchType == "endsWith")
      && (EndsWithGroupClose(p) <==> matchType == "exact" || matchType == "endsWith")
  {
    var p := Anchor(j, matchType);
    if matchType == "exact" || matchType == "startsWith" {
      assert p[0] == '^';
    } else if matchType == "endsWith" {
      assert p[0] == '(';
    }
    if matchType == "startsWith" {
      assert p[|p| - 1] == ')';
    }
  }

  /**
   * For a non-blank input the match type shows at the pattern's ends: it
   * starts with `^` exactly for "exact" and "startsWith", with `(` exactly for
   * "endsWith", and ends with `)$` exactly for "exact" and "endsWith". Any
   * other match type gives the bare alternation.
   */
  lemma ConvertAnchors(input: String, matchType: String, caseTransform: String, wordBoundary: bool)
    requires !AllSpace(input)
    ensures var p := ConvertToRegex(input, matchType, caseTransform, wordBoundary);
      p != []
      && (p[0] == '^' <==> matchType == "exact" || matchType == "startsWith")
      && (p[0] == '(' <==> matchType == "endsWith")
      && (EndsWithGroupClose(p) <==> matchType == "exact" || matchType == "endsWith")
      && (matchType != "exact" && matchType != "startsWith" && matchType != "endsWith"
          ==> p == Alternation(Values(input), caseTransform, wordBoundary))
  {
    var j := Alternation(Values(input), caseTransform, wordBoundary);
    assert ConvertToRegex(input, matchType, caseTransform, wordBoundary) == Anchor(j, matchType);
    AlternationEnds(Values(input), caseTransform, wordBoundary);
    AnchorEnds(j, matchType);
  }

  // ---------------------------------------------------------------------------
  // A single plain value
  // ---------------------------------------------------------------------------

  lemma {:induction false} JoinBlank(lines: seq<String>)
    requires AllBlank(lines)
    ensures AllSpace(Join(lines, '\n'))
  {
    if |lines| > 1 {
      JoinBlank(lines[1..]);
      assert AllSpace(lines[0]);
      AllSpaceAppend(lines[0], ['\n']);
      AllSpaceAppend(lines[0] + ['\n'], Join(lines[1..], '\n'));
    }
  }

  /** When only one line is not blank, stripping the whole text gives that line stripped. */
  lemma {:induction false} OneValueStrip(lines: seq<String>, v: String)
    requires CleanLines(lines) == [v]
    ensures Strip(Join(lines, '\n')) == v
  {
    CleanLinesFirst(lines);
    if AllSpace(lines[0]) {
      OneValueStrip(lines[1..], v);
      BlankLineFirst(lines);
    } else {
      var tail := CleanLines(lines[1..]);
      assert [Strip(lines[0])] + tail == [v];
      assert |tail| == 0;
      assert ([Strip(lines[0])] + tail)[0] == Strip(lines[0]);
      CleanLinesEmpty(lines[1..]);
      OnlyLineFirst(lines);
    }
  }

  lemma CleanLinesFirst(lines: seq<String>)
    requires lines != []
    ensures CleanLines(lines) == (if AllSpace(lines[0]) then [] else [Strip(lines[0])]) + CleanLines(lines[1..])
  {
  }

  lemma BlankLineFirst(lines: seq<String>)
    requires |lines| > 1 && AllSpace(lines[0])
    ensures Strip(Join(lines, '\n')) == Strip(Join(lines[1..], '\n'))
  {
    var l0 := lines[0];
    var tail := Join(lines[1..], '\n');
    assert Join(lines, '\n') == (l0 + ['\n']) + tail + [];
    AllSpaceAppend(l0, ['\n']);
    StripPadded(l0 + ['\n'], tail, []);
  }

  lemma OnlyLineFirst(lines: seq<String>)
    requires |lines| > 0 && AllBlank(lines[1..])
    ensures Strip(Join(lines, '\n')) == Strip(lines[0])
  {
    if |lines| > 1 {
      var tail := Join(lines[1..], '\n');
      JoinBlank(lines[1..]);
      AllSpaceAppend(['\n'], tail);
      assert Join(lines, '\n') == [] + lines[0] + (['\n'] + tail);
      StripPadded([], lines[0], ['\n'] + tail);
    }
  }

  /** An input with one non-blank line has that line, stripped, as its value and strips to it. */
  lemma SingleValueIsStrippedInput(input: String)
    requires |Values(input)| == 1
    ensures Values(input)[0] == Strip(input)
  {
    JoinSplit(input, '\n');
    OneValueStrip(Split(input, '\n'), Values(input)[0]);
  }

  /**
   * One value, no special characters, no case transform, no word boundary and
   * no anchoring: the pattern is the input, stripped.
   */
  lemma SingleValue(input: String, matchType: String, caseTransform: String)
    requires |Values(input)| == 1
    requires Plain(Values(input)[0])
    requires caseTransform != "upper" && caseTransform != "lower"
    requires matchType != "exact" && matchType != "startsWith" && matchType != "endsWith"
    ensures ConvertToRegex(input, matchType, caseTransform, false) == Strip(input)
  {
    var v := Values(input)[0];
    SingleValueIsStrippedInput(input);
    EscapePlain(v);
    assert EscapeAll([v]) == [v];
    assert Values(input) == [v];
  }
}
