/** Splitting, trimming and joining of strings, re-specified directly over
    `seq<char>`: the behaviour of Guava's `Splitter.on(c).trimResults()` and
    `Joiner.on(sep).join(...)` that the encoding short forms rely on. */
module Text {

  /** The fixed character set of Guava's `CharMatcher.whitespace()`, which
      `trimResults()` strips: the Unicode White_Space characters. */
  predicate IsWhitespace(c: char) {
    || ('\t' <= c <= '\r')  // tab, line feed, vertical tab, form feed, carriage return
    || c == ' ' || c == '\U{85}' || c == '\U{A0}' || c == '\U{1680}'
    || ('\U{2000}' <= c <= '\U{200A}')
    || c == '\U{2028}' || c == '\U{2029}' || c == '\U{202F}' || c == '\U{205F}' || c == '\U{3000}'
  }

  predicate AllWhitespace(s: string) {
    forall i :: 0 <= i < |s| ==> IsWhitespace(s[i])
  }

  /** Neither starts nor ends with whitespace. */
  predicate IsTrimmed(s: string) {
    s == [] || (!IsWhitespace(s[0]) && !IsWhitespace(s[|s| - 1]))
  }

  /** Drops the leading whitespace of `s`. */
  function TrimStart(s: string): (r: string)
    ensures |r| <= |s|
    ensures r == [] || !IsWhitespace(r[0])
  {
    if s != [] && IsWhitespace(s[0]) then TrimStart(s[1..]) else s
  }

  /** Drops the trailing whitespace of `s`. */
  function TrimEnd(s: string): (r: string)
    ensures |r| <= |s|
    ensures r != [] ==> r[0] == s[0]
    ensures r == [] || !IsWhitespace(r[|r| - 1])
  {
    if s != [] && IsWhitespace(s[|s| - 1]) then TrimEnd(s[..|s| - 1]) else s
  }

  /** `CharMatcher.whitespace().trimFrom(s)`: the part of `s` between its
      leading and trailing whitespace. */
  function Trim(s: string): (r: string)
    ensures IsTrimmed(r)
    ensures |r| <= |s|
  {
    TrimEnd(TrimStart(s))
  }

  lemma {:induction false} TrimStartKeeps(s: string, c: char)
    requires c in TrimStart(s)
    ensures c in s
  {
    if s != [] && IsWhitespace(s[0]) {
      TrimStartKeeps(s[1..], c);
    }
  }

  lemma {:induction false} TrimEndKeeps(s: string, c: char)
    requires c in TrimEnd(s)
    ensures c in s
  {
    if s != [] && IsWhitespace(s[|s| - 1]) {
      TrimEndKeeps(s[..|s| - 1], c);
    }
  }

  /** Trim removes characters and adds none. */
  lemma TrimKeeps(s: string, c: char)
    requires c in Trim(s)
    ensures c in s
  {
    TrimEndKeeps(TrimStart(s), c);
    TrimStartKeeps(s, c);
  }

  /** Only a string made of whitespace trims to nothing at its start. */
  lemma {:induction false} TrimStartEmpty(s: string)
    requires TrimStart(s) == []
    ensures AllWhitespace(s)
  {
    if s != [] {
      TrimStartEmpty(s[1..]);
      assert forall i :: 1 <= i < |s| ==> s[i] == s[1..][i - 1];
    }
  }

  /** The whitespace TrimStart drops is a prefix of its input. */
  lemma {:induction false} TrimStartSplitsOff(s: string) returns (pre: string)
    ensures s == pre + TrimStart(s) && AllWhitespace(pre)
  {
    if s != [] && IsWhitespace(s[0]) {
      var rest := TrimStartSplitsOff(s[1..]);
      pre := [s[0]] + rest;
      assert s == [s[0]] + s[1..];
    } else {
      pre := [];
    }
  }

  /** The whitespace TrimEnd drops is a suffix of its input. */
  lemma {:induction false} TrimEndSplitsOff(s: string) returns (post: string)
    ensures s == TrimEnd(s) + post && AllWhitespace(post)
  {
    if s != [] && IsWhitespace(s[|s| - 1]) {
      var rest := TrimEndSplitsOff(s[..|s| - 1]);
      post := rest + [s[|s| - 1]];
      assert s == s[..|s| - 1] + [s[|s| - 1]];
    } else {
      post := [];
    }
  }

  /** Every string is its trimmed part with a whitespace margin on each side. */
  lemma TrimSplitsOff(s: string) returns (pre: string, post: string)
    ensures s == pre + Trim(s) + post
    ensures AllWhitespace(pre) && AllWhitespace(post)
  {
    pre := TrimStartSplitsOff(s);
    post := TrimEndSplitsOff(TrimStart(s));
  }

  lemma {:induction false} AllWhitespaceTrimStart(s: string)
    requires AllWhitespace(s)
    ensures TrimStart(s) == []
  {
    if s != [] {
      AllWhitespaceTrimStart(s[1..]);
    }
  }

  lemma {:induction false} TrimStartMargin(pre: string, s: string)
    requires AllWhitespace(pre)
    ensures TrimStart(pre + s) == TrimStart(s)
  {
    if pre != [] {
      assert (pre + s)[1..] == pre[1..] + s;
      TrimStartMargin(pre[1..], s);
    } else {
      assert pre + s == s;
    }
  }

  lemma {:induction false} TrimStartAppend(s: string, post: string)
    requires TrimStart(s) != []
    ensures TrimStart(s + post) == TrimStart(s) + post
  {
    if IsWhitespace(s[0]) {
      assert (s + post)[1..] == s[1..] + post;
      TrimStartAppend(s[1..], post);
    }
  }

  lemma {:induction false} TrimEndMargin(s: string, post: string)
    requires AllWhitespace(post)
    ensures TrimEnd(s + post) == TrimEnd(s)
  {
    if post != [] {
      var q := post[..|post| - 1];
      assert (s + post)[..|s + post| - 1] == s + q;
      TrimEndMargin(s, q);
    } else {
      assert s + post == s;
    }
  }

  lemma AllWhitespaceConcat(a: string, b: string)
    requires AllWhitespace(a) && AllWhitespace(b)
    ensures AllWhitespace(a + b)
  {
  }

  /** Trimming a trimmed string changes nothing; in particular Trim is idempotent. */
  lemma TrimTrimmed(s: string)
    requires IsTrimmed(s)
    ensures Trim(s) == s
  {
  }

  /** Whitespace around a string does not change what Trim returns. */
  lemma TrimIgnoresMargins(pre: string, s: string, post: string)
    requires AllWhitespace(pre) && AllWhitespace(post)
    ensures Trim(pre + s + post) == Trim(s)
  {
    assert pre + s + post == pre + (s + post);
    TrimStartMargin(pre, s + post);
    var t := TrimStart(s);
    if t == [] {
      TrimStartEmpty(s);
      AllWhitespaceConcat(s, post);
      AllWhitespaceTrimStart(s + post);
    } else {
      TrimStartAppend(s, post);
      TrimEndMargin(t, post);
    }
  }

  /** Guava's `Splitter.on(sep).split(s)`: the pieces between consecutive
      occurrences of `sep`, empty pieces included. */
  function Split(s: string, sep: char): (parts: seq<string>)
    ensures |parts| >= 1
    ensures forall i :: 0 <= i < |parts| ==> sep !in parts[i]
  {
    if s == [] then [[]]
    else
      var rest := Split(s[1..], sep);
      if s[0] == sep then [[]] + rest
      else [[s[0]] + rest[0]] + rest[1..]
  }

  /** `Splitter.on(sep).trimResults().split(s)`: every piece of Split, trimmed. */
  function SplitTrimmed(s: string, sep: char): (parts: seq<string>)
    ensures |parts| == |Split(s, sep)| >= 1
    ensures forall i :: 0 <= i < |parts| ==> parts[i] == Trim(Split(s, sep)[i])
  {
    TrimAll(Split(s, sep))
  }

  /** Every string of `parts`, trimmed. */
  function TrimAll(parts: seq<string>): (r: seq<string>)
    ensures |r| == |parts|
    ensures forall i :: 0 <= i < |parts| ==> r[i] == Trim(parts[i])
  {
    if parts == [] then [] else [Trim(parts[0])] + TrimAll(parts[1..])
  }

  /** Guava's `Joiner.on(sep).join(parts)`: the parts with `sep` between each
      two neighbours. A character found in neither the parts nor the
      separator is not in the result. */
  function Join(parts: seq<string>, sep: string): (r: string)
    ensures forall c :: c !in sep && (forall i :: 0 <= i < |parts| ==> c !in parts[i]) ==> c !in r
  {
    if parts == [] then []
    else if |parts| == 1 then parts[0]
    else parts[0] + sep + Join(parts[1..], sep)
  }

  /** The piece before a first separator stays whole; the rest splits on its own. */
  lemma {:induction false} SplitAfterFirst(a: string, sep: char, rest: string)
    requires sep !in a
    ensures Split(a + [sep] + rest, sep) == [a] + Split(rest, sep)
  {
    if a == [] {
      assert a + [sep] + rest == [sep] + rest;
      assert ([sep] + rest)[1..] == rest;
    } else {
      var s := a + [sep] + rest;
      assert s[1..] == a[1..] + [sep] + rest;
      SplitAfterFirst(a[1..], sep, rest);
      assert [a[0]] + a[1..] == a;
    }
  }

  /** A string without the separator is its own single piece. */
  lemma {:induction false} SplitWithout(a: string, sep: char)
    requires sep !in a
    ensures Split(a, sep) == [a]
  {
    if a != [] {
      SplitWithout(a[1..], sep);
      assert [a[0]] + a[1..] == a;
    }
  }

  /** Joining the pieces of a Split with the separator gives back the input. */
  lemma {:induction false} JoinSplit(s: string, sep: char)
    ensures Join(Split(s, sep), [sep]) == s
  {
    if s != [] {
      var rest := Split(s[1..], sep);
      JoinSplit(s[1..], sep);
      if s[0] == sep {
        assert Join([[]] + rest, [sep]) == [] + [sep] + Join(rest, [sep]);
      } else {
        var parts := [[s[0]] + rest[0]] + rest[1..];
        if |rest| == 1 {
          assert Join(rest, [sep]) == rest[0];
        } else {
          assert Join(rest, [sep]) == rest[0] + [sep] + Join(rest[1..], [sep]);
          assert parts[1..] == rest[1..];
        }
      }
    }
  }

  /** Splitting a join of separator-free parts gives back the parts. */
  lemma {:induction false} SplitJoin(parts: seq<string>, sep: char)
    requires |parts| >= 1
    requires forall i :: 0 <= i < |parts| ==> sep !in parts[i]
    ensures Split(Join(parts, [sep]), sep) == parts
  {
    if |parts| == 1 {
      SplitWithout(parts[0], sep);
    } else {
      SplitJoin(parts[1..], sep);
      SplitAfterFirst(parts[0], sep, Join(parts[1..], [sep]));
      assert [parts[0]] + parts[1..] == parts;
    }
  }

  /** Text before the first piece joins that piece. */
  lemma {:induction false} SplitPrepend(pre: string, s: string, sep: char)
    requires sep !in pre
    ensures Split(pre + s, sep) == [pre + Split(s, sep)[0]] + Split(s, sep)[1..]
  {
    var x := Split(s, sep);
    if pre == [] {
      assert pre + s == s;
      assert pre + x[0] == x[0];
      assert [x[0]] + x[1..] == x;
    } else {
      assert (pre + s)[1..] == pre[1..] + s;
      SplitPrepend(pre[1..], s, sep);
      assert [pre[0]] + (pre[1..] + x[0]) == pre + x[0];
    }
  }

  /** Text after the last piece joins that piece. */
  lemma {:induction false} SplitAppend(s: string, post: string, sep: char)
    requires sep !in post
    ensures var x := Split(s, sep);
      Split(s + post, sep) == x[..|x| - 1] + [x[|x| - 1] + post]
  {
    if s == [] {
      assert s + post == post;
      SplitWithout(post, sep);
    } else {
      var r := Split(s[1..], sep);
      var k := |r| - 1;
      var q := Split(s[1..] + post, sep);
      assert q == r[..k] + [r[k] + post] by { SplitAppend(s[1..], post, sep); }
      assert (s + post)[1..] == s[1..] + post;
      if s[0] == sep {
        SplitAppendAfterSeparator(r, q, post);
      } else {
        SplitAppendInside(s[0], r, q, post);
      }
    }
  }

  lemma SplitAppendAfterSeparator(r: seq<string>, q: seq<string>, post: string)
    requires |r| >= 1 && q == r[..|r| - 1] + [r[|r| - 1] + post]
    ensures var x := [[]] + r; [[]] + q == x[..|x| - 1] + [x[|x| - 1] + post]
  {
  }

  lemma SplitAppendInside(c: char, r: seq<string>, q: seq<string>, post: string)
    requires |r| >= 1 && q == r[..|r| - 1] + [r[|r| - 1] + post]
    ensures var x := [[c] + r[0]] + r[1..];
      [[c] + q[0]] + q[1..] == x[..|x| - 1] + [x[|x| - 1] + post]
  {
    var k := |r| - 1;
    var x := [[c] + r[0]] + r[1..];
    if k == 0 {
      assert [c] + (r[0] + post) == [c] + r[0] + post;
    } else {
      assert x[..k] == [[c] + r[0]] + r[1..k];
      assert q[1..] == r[1..k] + [r[k] + post];
    }
  }

  /** The pieces of `pre + m + post`, for margins without the separator,
      are those of `m` with `pre` joined to the first and `post` to the last. */
  lemma SplitMarginsAt(pre: string, m: string, post: string, sep: char, i: nat)
    requires sep !in pre && sep !in post
    requires i < |Split(m, sep)|
    ensures |Split(pre + m + post, sep)| == |Split(m, sep)|
    ensures Split(pre + m + post, sep)[i] ==
      (if i == 0 then pre else []) + Split(m, sep)[i] + (if i == |Split(m, sep)| - 1 then post else [])
  {
    var x := Split(m, sep);
    var n := |x| - 1;
    var z := Split(m + post, sep);
    assert z == x[..n] + [x[n] + post] by { SplitAppend(m, post, sep); }
    assert pre + m + post == pre + (m + post);
    SplitPrepend(pre, m + post, sep);
    if i == 0 && n == 0 {
      assert pre + (x[0] + post) == pre + x[0] + post;
    } else if i == 0 {
      assert z[0] == x[0];
    } else if i == n {
      assert z[i] == x[n] + post;
    }
  }

  /** Whitespace around the whole input is trimmed off its first and last
      pieces anyway: splitting with trimmed results does not see it. */
  lemma SplitTrimmedIgnoresMargins(s: string, sep: char)
    requires !IsWhitespace(sep)
    ensures SplitTrimmed(Trim(s), sep) == SplitTrimmed(s, sep)
  {
    var m := Trim(s);
    var pre, post := TrimSplitsOff(s);
    assert sep !in pre && sep !in post;
    var x := Split(m, sep);
    SplitMarginsAt(pre, m, post, sep, 0);
    assert |Split(s, sep)| == |x|;
    forall i | 0 <= i < |x|
      ensures Trim(Split(s, sep)[i]) == Trim(x[i])
    {
      SplitMarginsAt(pre, m, post, sep, i);
      TrimIgnoresMargins(if i == 0 then pre else [], x[i], if i == |x| - 1 then post else []);
    }
  }
}
