/**
 * Text primitives the pattern builder relies on: Python's notion of
 * whitespace, `str.strip()`, `str.split(sep)` and `sep.join(pieces)` for a
 * one-character separator. Strings are sequences of characters.
 */
module Strings {

  type String = seq<char>

  datatype Option<T> = None | Some(value: T)

  /**
   * Python's `str.isspace()`: the characters whose Unicode bidirectional
   * class is WS, B or S, or whose category is Zs, listed by code point.
   */
  predicate IsSpace(c: char) {
    var n := c as int;
    0x09 <= n <= 0x0D || 0x1C <= n <= 0x20 || n == 0x85 || n == 0xA0 || n == 0x1680
    || 0x2000 <= n <= 0x200A || n == 0x2028 || n == 0x2029 || n == 0x202F || n == 0x205F
    || n == 0x3000
  }

  predicate AllSpace(s: String) {
    forall i {:trigger IsSpace(s[i])} :: 0 <= i < |s| ==> IsSpace(s[i])
  }

  lemma AllSpaceAppend(a: String, b: String)
    ensures AllSpace(a + b) <==> AllSpace(a) && AllSpace(b)
  {
    if AllSpace(a) && AllSpace(b) {
      forall i | 0 <= i < |a + b| ensures IsSpace((a + b)[i]) {
        if i >= |a| { assert (a + b)[i] == b[i - |a|]; }
      }
    }
    if AllSpace(a + b) {
      forall i | 0 <= i < |a| ensures IsSpace(a[i]) {
        assert (a + b)[i] == a[i];
      }
      forall i | 0 <= i < |b| ensures IsSpace(b[i]) {
        assert (a + b)[|a| + i] == b[i];
      }
    }
  }

  /** Non-empty, and neither starts nor ends with whitespace. */
  predicate Trimmed(v: String) {
    v != [] && !IsSpace(v[0]) && !IsSpace(v[|v| - 1])
  }

  /** `s.lstrip()`: `s` without its leading whitespace. */
  function TrimStart(s: String): (r: String)
    ensures |r| <= |s|
    ensures r == [] || !IsSpace(r[0])
  {
    if |s| > 0 && IsSpace(s[0]) then TrimStart(s[1..]) else s
  }

  /** `lstrip` drops a run of whitespace from the front and keeps the rest. */
  lemma {:induction false} TrimStartDrops(s: String)
    ensures TrimStart(s) == s[|s| - |TrimStart(s)|..]
    ensures AllSpace(s[..|s| - |TrimStart(s)|])
  {
    if |s| > 0 && IsSpace(s[0]) {
      TrimStartDrops(s[1..]);
      var k := |s| - |TrimStart(s)|;
      assert s[1..][k - 1..] == s[k..];
      forall i | 0 <= i < k ensures IsSpace(s[..k][i]) {
        if i > 0 {
          assert s[..k][i] == s[1..][..k - 1][i - 1];
        }
      }
    }
  }

  /** `s.rstrip()`: `s` without its trailing whitespace. */
  function TrimEnd(s: String): (r: String)
    ensures |r| <= |s|
    ensures r == [] || !IsSpace(r[|r| - 1])
  {
    if |s| > 0 && IsSpace(s[|s| - 1]) then TrimEnd(s[..|s| - 1]) else s
  }

  /** `rstrip` drops a run of whitespace from the back and keeps the rest. */
  lemma {:induction false} TrimEndKeeps(s: String)
    ensures TrimEnd(s) == s[..|TrimEnd(s)|]
    ensures AllSpace(s[|TrimEnd(s)|..])
  {
    if |s| > 0 && IsSpace(s[|s| - 1]) {
      var s' := s[..|s| - 1];
      TrimEndKeeps(s');
      var n := |TrimEnd(s)|;
      assert s'[..n] == s[..n];
      forall i | 0 <= i < |s| - n ensures IsSpace(s[n..][i]) {
        if i < |s| - 1 - n {
          assert s[n..][i] == s'[n..][i];
        }
      }
    }
  }

  /**
   * `s.strip()`. The result is empty exactly when `s` is all whitespace;
   * otherwise it neither starts nor ends with whitespace.
   */
  function Strip(s: String): (r: String)
    ensures |r| <= |s|
    ensures r == [] <==> AllSpace(s)
    ensures r == [] || Trimmed(r)
  {
    StripFacts(s);
    TrimEnd(TrimStart(s))
  }

  lemma StripFacts(s: String)
    ensures TrimEnd(TrimStart(s)) == [] <==> AllSpace(s)
    ensures TrimEnd(TrimStart(s)) == [] || !IsSpace(TrimEnd(TrimStart(s))[0])
  {
    var t := TrimStart(s);
    var r := TrimEnd(t);
    TrimStartBlank(s);
    TrimEndKeeps(t);
    if r == [] {
      assert t[|r|..] == t;
    } else {
      assert r[0] == t[0];
    }
  }

  lemma TrimStartBlank(s: String)
    ensures AllSpace(TrimStart(s)) <==> AllSpace(s)
  {
    var t := TrimStart(s);
    var k := |s| - |t|;
    TrimStartDrops(s);
    if AllSpace(t) {
      assert k == |s|;
      forall i | 0 <= i < |s| ensures IsSpace(s[i]) {
        assert s[i] == s[..k][i];
      }
    }
  }

  /** Stripping only removes whitespace from the two ends: `s` is `lead + r + trail`. */
  lemma StripInfix(s: String) returns (lead: nat)
    ensures lead + |Strip(s)| <= |s|
    ensures s[lead..lead + |Strip(s)|] == Strip(s)
    ensures AllSpace(s[..lead]) && AllSpace(s[lead + |Strip(s)|..])
  {
    var t := TrimStart(s);
    var r := TrimEnd(t);
    TrimStartDrops(s);
    TrimEndKeeps(t);
    lead := |s| - |t|;
    assert t == s[lead..];
    assert s[lead + |r|..] == t[|r|..];
    assert |r| <= |t| && r == t[..|r|];
    forall i | 0 <= i < |r| ensures s[lead..lead + |r|][i] == r[i] {
      assert s[lead + i] == t[i];
    }
  }

  /** Text that neither starts nor ends with whitespace is left alone by stripping. */
  lemma StripUnpadded(v: String)
    requires v == [] || Trimmed(v)
    ensures Strip(v) == v
  {
    assert TrimStart(v) == v;
    assert TrimEnd(v) == v;
  }

  lemma StripIdempotent(s: String)
    ensures Strip(Strip(s)) == Strip(s)
  {
    StripUnpadded(Strip(s));
  }

  lemma {:induction false} TrimStartSpacePrefix(a: String, x: String)
    requires AllSpace(a)
    ensures TrimStart(a + x) == TrimStart(x)
  {
    if a == [] {
      assert a + x == x;
    } else {
      assert (a + x)[0] == a[0];
      assert (a + x)[1..] == a[1..] + x;
      TrimStartSpacePrefix(a[1..], x);
    }
  }

  lemma {:induction false} TrimEndSpaceSuffix(x: String, b: String)
    requires AllSpace(b)
    ensures TrimEnd(x + b) == TrimEnd(x)
  {
    if b == [] {
      assert x + b == x;
    } else {
      var b' := b[..|b| - 1];
      assert (x + b)[|x + b| - 1] == b[|b| - 1];
      assert (x + b)[..|x + b| - 1] == x + b';
      TrimEndSpaceSuffix(x, b');
    }
  }

  lemma {:induction false} TrimStartSuffix(x: String, b: String)
    requires !AllSpace(x)
    ensures TrimStart(x + b) == TrimStart(x) + b
  {
    assert x != [];
    assert (x + b)[0] == x[0];
    if IsSpace(x[0]) {
      assert (x + b)[1..] == x[1..] + b;
      assert !AllSpace(x[1..]) by {
        var i :| 0 <= i < |x| && !IsSpace(x[i]);
        assert x[1..][i - 1] == x[i];
      }
      TrimStartSuffix(x[1..], b);
    }
  }

  /** Whitespace around a text makes no difference to stripping it. */
  lemma StripPadded(a: String, x: String, b: String)
    requires AllSpace(a) && AllSpace(b)
    ensures Strip(a + x + b) == Strip(x)
  {
    assert a + x + b == a + (x + b);
    TrimStartSpacePrefix(a, x + b);
    if AllSpace(x) {
      AllSpaceAppend(x, b);
    } else {
      TrimStartSuffix(x, b);
      TrimEndSpaceSuffix(TrimStart(x), b);
    }
  }

  /** `s.split(sep)`: the maximal runs of `s` between occurrences of `sep`. */
  function Split(s: String, sep: char): (r: seq<String>)
    ensures |r| >= 1
    ensures forall k :: 0 <= k < |r| ==> sep !in r[k]
  {
    if s == [] then [[]]
    else
      var rest := Split(s[1..], sep);
      if s[0] == sep then [[]] + rest
      else [[s[0]] + rest[0]] + rest[1..]
  }

  /** `sep.join(pieces)`. */
  function Join(pieces: seq<String>, sep: char): (r: String)
    ensures r == [] <==> |pieces| == 0 || (|pieces| == 1 && pieces[0] == [])
  {
    if |pieces| == 0 then []
    else if |pieces| == 1 then pieces[0]
    else pieces[0] + [sep] + Join(pieces[1..], sep)
  }

  /** The first piece starts the joined text. */
  lemma JoinFirst(pieces: seq<String>, sep: char)
    requires |pieces| > 0
    ensures |pieces[0]| <= |Join(pieces, sep)|
    ensures Join(pieces, sep)[..|pieces[0]|] == pieces[0]
  {
    if |pieces| > 1 {
      var j := Join(pieces, sep);
      assert j == pieces[0] + ([sep] + Join(pieces[1..], sep));
    }
  }

  /** Extending the first piece extends the join at its front. */
  lemma JoinExtendFirst(h: String, rest: seq<String>, sep: char)
    requires |rest| >= 1
    ensures Join([h + rest[0]] + rest[1..], sep) == h + Join(rest, sep)
  {
    var r := [h + rest[0]] + rest[1..];
    if |rest| > 1 {
      assert r[0] == h + rest[0] && r[1..] == rest[1..];
      assert Join(r, sep) == (h + rest[0]) + [sep] + Join(rest[1..], sep);
      assert Join(rest, sep) == rest[0] + [sep] + Join(rest[1..], sep);
    }
  }

  /** An empty first piece puts a separator at the front of the join. */
  lemma JoinConsEmpty(rest: seq<String>, sep: char)
    requires |rest| >= 1
    ensures Join([[]] + rest, sep) == [sep] + Join(rest, sep)
  {
    var r := [[]] + rest;
    assert r[0] == [] && r[1..] == rest;
  }

  /** The last piece ends the joined text. */
  lemma {:induction false} JoinLast(pieces: seq<String>, sep: char)
    requires |pieces| > 0
    ensures |pieces[|pieces| - 1]| <= |Join(pieces, sep)|
    ensures Join(pieces, sep)[|Join(pieces, sep)| - |pieces[|pieces| - 1]|..] == pieces[|pieces| - 1]
  {
    if |pieces| > 1 {
      JoinLast(pieces[1..], sep);
      var j := Join(pieces[1..], sep);
      assert pieces[1..][|pieces| - 2] == pieces[|pieces| - 1];
      var whole := pieces[0] + [sep] + j;
      assert whole[|whole| - |j|..] == j;
    }
  }

  /** Joining the pieces of a split gives back the text. */
  lemma {:induction false} JoinSplit(s: String, sep: char)
    ensures Join(Split(s, sep), sep) == s
  {
    if s != [] {
      var rest := Split(s[1..], sep);
      JoinSplit(s[1..], sep);
      if s[0] == sep {
        assert Split(s, sep) == [[]] + rest;
        assert Split(s, sep)[1..] == rest;
      } else {
        var r := Split(s, sep);
        assert r == [[s[0]] + rest[0]] + rest[1..];
        if |rest| == 1 {
          assert r == [[s[0]] + rest[0]];
        } else {
          assert r[1..] == rest[1..];
          assert Join(rest, sep) == rest[0] + [sep] + Join(rest[1..], sep);
        }
      }
    }
  }

  /** Splitting `p + u` where `p` holds no separator extends the first piece of `u`'s split. */
  lemma {:induction false} SplitPrefix(p: String, u: String, sep: char)
    requires sep !in p
    ensures Split(p + u, sep) == [p + Split(u, sep)[0]] + Split(u, sep)[1..]
  {
    var su := Split(u, sep);
    if p == [] {
      assert p + u == u;
      assert p + su[0] == su[0];
      assert su == [su[0]] + su[1..];
    } else {
      assert (p + u)[0] == p[0];
      assert (p + u)[1..] == p[1..] + u;
      SplitPrefix(p[1..], u, sep);
      var rest := Split(p[1..] + u, sep);
      assert rest[0] == p[1..] + su[0];
      assert rest[1..] == su[1..];
      assert [p[0]] + (p[1..] + su[0]) == p + su[0];
    }
  }

  /** Splitting a join of separator-free pieces gives back the pieces. */
  lemma {:induction false} SplitJoin(pieces: seq<String>, sep: char)
    requires |pieces| >= 1
    requires forall k :: 0 <= k < |pieces| ==> sep !in pieces[k]
    ensures Split(Join(pieces, sep), sep) == pieces
  {
    if |pieces| == 1 {
      SplitPrefix(pieces[0], [], sep);
      assert pieces[0] + [] == pieces[0];
    } else {
      var tail := Join(pieces[1..], sep);
      SplitJoin(pieces[1..], sep);
      assert Join(pieces, sep) == pieces[0] + ([sep] + tail);
      SplitPrefix(pieces[0], [sep] + tail, sep);
      var st := Split([sep] + tail, sep);
      assert ([sep] + tail)[0] == sep;
      assert ([sep] + tail)[1..] == tail;
      assert st == [[]] + pieces[1..];
      assert st[0] == [] && st[1..] == pieces[1..];
      assert pieces[0] + [] == pieces[0];
      assert [pieces[0]] + pieces[1..] == pieces;
    }
  }
}
