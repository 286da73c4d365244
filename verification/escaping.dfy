/**
 * Literal escaping of a value for the regular-expression dialect: every
 * character of a fixed special set is preceded by a backslash, every other
 * character is kept. The table is the one `re.escape` uses from Python 3.7
 * on; `Unescape` is its inverse and recognises exactly the escaped texts.
 */
module Escaping {

  import opened Strings

  /**
   * The characters that `re.escape` prefixes with a backslash: the regex
   * metacharacters `( ) [ ] { } ? * + - | ^ $ \ .`, the characters `& ~ #`, the
   * space and the whitespace controls tab, newline, carriage return, vertical
   * tab and form feed.
   */
  predicate IsSpecial(c: char) {
    c == '(' || c == ')' || c == '[' || c == ']' || c == '{' || c == '}' || c == '?' || c == '*'
    || c == '+' || c == '-' || c == '|' || c == '^' || c == '$' || c == '\\' || c == '.'
    || c == '&' || c == '~' || c == '#'
    || c == ' ' || c == '\t' || c == '\n' || c == '\r' || c == '\U{0B}' || c == '\U{0C}'
  }

  /** A value with no special character. */
  predicate Plain(v: String) {
    forall i :: 0 <= i < |v| ==> !IsSpecial(v[i])
  }

  function EscapeChar(c: char): (r: String)
  {
    if IsSpecial(c) then ['\\', c] else [c]
  }

  /** `escape_regex(s)`: each character of `s` in turn, escaped. */
  function Escape(s: String): (r: String)
    ensures |s| <= |r| <= 2 * |s|
  {
    if s == [] then [] else EscapeChar(s[0]) + Escape(s[1..])
  }

  /**
   * Reads an escaped text back: `\` followed by a special character stands for
   * that character, any other non-special character for itself. A special
   * character standing alone, a backslash before a non-special character and a
   * trailing backslash make the text one that escaping never produces.
   */
  function Unescape(t: String): (r: Option<String>)
    ensures r.Some? ==> |r.value| <= |t|
  {
    if t == [] then Some([])
    else if t[0] == '\\' then
      if |t| >= 2 && IsSpecial(t[1]) then
        match Unescape(t[2..])
        case Some(s) => Some([t[1]] + s)
        case None => None
      else None
    else if IsSpecial(t[0]) then None
    else
      match Unescape(t[1..])
      case Some(s) => Some([t[0]] + s)
      case None => None
  }

  /** Escaping is undone by `Unescape`. */
  lemma {:induction false} UnescapeEscape(s: String)
    ensures Unescape(Escape(s)) == Some(s)
  {
    if s != [] {
      var e := Escape(s);
      UnescapeEscape(s[1..]);
      if IsSpecial(s[0]) {
        assert e == ['\\', s[0]] + Escape(s[1..]);
        assert e[2..] == Escape(s[1..]);
      } else {
        assert e == [s[0]] + Escape(s[1..]);
        assert e[1..] == Escape(s[1..]);
      }
      assert [s[0]] + s[1..] == s;
    }
  }

  /** Whatever `Unescape` accepts is the escaping of what it returns. */
  lemma {:induction false} EscapeUnescape(t: String, s: String)
    requires Unescape(t) == Some(s)
    ensures Escape(s) == t
  {
    if t != [] {
      if t[0] == '\\' {
        var s' := Unescape(t[2..]).value;
        EscapeUnescape(t[2..], s');
        assert s == [t[1]] + s';
        assert s[0] == t[1] && s[1..] == s';
        assert t == ['\\', t[1]] + t[2..];
      } else {
        var s' := Unescape(t[1..]).value;
        EscapeUnescape(t[1..], s');
        assert s == [t[0]] + s';
        assert s[0] == t[0] && s[1..] == s';
        assert t == [t[0]] + t[1..];
      }
    }
  }

  /** A text is the escaping of `s` exactly when `Unescape` reads `s` from it. */
  lemma EscapeIff(t: String, s: String)
    ensures Unescape(t) == Some(s) <==> Escape(s) == t
  {
    if Unescape(t) == Some(s) {
      EscapeUnescape(t, s);
    }
    if Escape(s) == t {
      UnescapeEscape(s);
    }
  }

  /**
   * An escaped non-empty value starts either with an escaping backslash or
   * with an ordinary character, and a `$` at its end is an escaped one.
   */
  lemma {:induction false} EscapeEdges(v: String)
    requires v != []
    ensures var e := Escape(v);
      |e| > 0 && (e[0] == '\\' || !IsSpecial(e[0]))
      && (e[|e| - 1] == '$' ==> |e| >= 2 && e[|e| - 2] == '\\')
  {
    var e := Escape(v);
    var c := EscapeChar(v[0]);
    assert e == c + Escape(v[1..]);
    if v[1..] == [] {
      assert e == c;
    } else {
      EscapeEdges(v[1..]);
      var t := Escape(v[1..]);
      assert e[|e| - 1] == t[|t| - 1];
      if |t| >= 2 {
        assert e[|e| - 2] == t[|t| - 2];
      }
    }
  }

  /** Every special character of `e` other than the backslash has a backslash right before it. */
  predicate SpecialsPreceded(e: String) {
    forall i :: 0 <= i < |e| && IsSpecial(e[i]) && e[i] != '\\' ==> i > 0 && e[i - 1] == '\\'
  }

  /** No special character is left bare by escaping. */
  lemma {:induction false} EscapeSpecialsPreceded(s: String)
    ensures SpecialsPreceded(Escape(s))
  {
    if s != [] {
      var c := EscapeChar(s[0]);
      var t := Escape(s[1..]);
      var e := Escape(s);
      EscapeSpecialsPreceded(s[1..]);
      assert e == c + t;
      forall i | 0 <= i < |e| && IsSpecial(e[i]) && e[i] != '\\' ensures i > 0 && e[i - 1] == '\\' {
        if i >= |c| {
          assert e[i] == t[i - |c|];
          if i > |c| {
            assert e[i - 1] == t[i - |c| - 1];
          }
        } else {
          assert e[i] == c[i] && e[0] == c[0];
        }
      }
    }
  }

  /** A value without special characters is its own escaping. */
  lemma {:induction false} EscapePlain(s: String)
    requires Plain(s)
    ensures Escape(s) == s
  {
    if s != [] {
      EscapePlain(s[1..]);
      assert [s[0]] + s[1..] == s;
    }
  }

  /**
   * Holds of a text in which every `|` is escaped: read left to right, a
   * backslash always has a character after it, which it takes with it, and no
   * other character is a `|`.
   */
  predicate BarFree(t: String)
  {
    if t == [] then true
    else if t[0] == '\\' then |t| >= 2 && BarFree(t[2..])
    else t[0] != '|' && BarFree(t[1..])
  }

  lemma {:induction false} BarFreeAppend(a: String, b: String)
    requires BarFree(a) && BarFree(b)
    ensures BarFree(a + b)
  {
    if a != [] {
      if a[0] == '\\' {
        assert (a + b)[2..] == a[2..] + b;
        BarFreeAppend(a[2..], b);
      } else {
        assert (a + b)[1..] == a[1..] + b;
        BarFreeAppend(a[1..], b);
      }
    } else {
      assert a + b == b;
    }
  }

  /** No `|` survives escaping unescaped. */
  lemma {:induction false} EscapeBarFree(s: String)
    ensures BarFree(Escape(s))
  {
    if s != [] {
      EscapeBarFree(s[1..]);
      var c := EscapeChar(s[0]);
      if IsSpecial(s[0]) {
        assert BarFree(c) by { assert c[2..] == []; }
      } else {
        assert BarFree(c) by { assert c[1..] == []; }
      }
      BarFreeAppend(c, Escape(s[1..]));
    }
  }
}
