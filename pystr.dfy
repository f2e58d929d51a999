/** The handful of Python `str` operations the scraper relies on, with
    Python's semantics: `split(sep)` always yields at least one piece,
    `split()` drops empty tokens, `strip()` removes the characters for
    which `str.isspace` holds. */
module PyStr {

  /** Python's `str.isspace` on one character. */
  predicate IsSpace(c: char) {
    c == ' ' || ('\t' <= c <= '\r') || ('\U{1c}' <= c <= '\U{1f}') ||
    c == '\U{85}' || c == '\U{a0}' || c == '\U{1680}' ||
    ('\U{2000}' <= c <= '\U{200a}') || c == '\U{2028}' || c == '\U{2029}' ||
    c == '\U{202f}' || c == '\U{205f}' || c == '\U{3000}'
  }

  predicate StartsWith(s: string, prefix: string) {
    |prefix| <= |s| && s[..|prefix|] == prefix
  }

  predicate EndsWith(s: string, suffix: string) {
    |suffix| <= |s| && s[|s| - |suffix|..] == suffix
  }

  /** `s.find(c)`: the first index of `c`, or -1. */
  function Find(s: string, c: char): (r: int)
    ensures -1 <= r < |s|
    ensures r < 0 <==> c !in s
    ensures r >= 0 ==> s[r] == c && c !in s[..r]
  {
    if |s| == 0 then -1
    else if s[0] == c then 0
    else
      var k := Find(s[1..], c);
      assert s[1..][..if k < 0 then 0 else k] == s[1..if k < 0 then 1 else k + 1];
      assert k >= 0 ==> s[..k + 1] == [s[0]] + s[1..][..k];
      if k < 0 then -1 else k + 1
  }

  /** `s.lstrip()` */
  function LStrip(s: string): (r: string)
    ensures |r| <= |s| && r == s[|s| - |r|..]
    ensures r == [] || !IsSpace(r[0])
  {
    if |s| > 0 && IsSpace(s[0]) then LStrip(s[1..]) else s
  }

  /** `s.rstrip()` */
  function RStrip(s: string): (r: string)
    ensures |r| <= |s| && r == s[..|r|]
    ensures r == [] || !IsSpace(r[|r| - 1])
  {
    if |s| > 0 && IsSpace(s[|s| - 1]) then RStrip(s[..|s| - 1]) else s
  }

  /** `r` is the text of `s` from index `k` on, and everything of `s`
      before `k` and after `r` is white space. */
  predicate Trimmed(s: string, k: int, r: string) {
    0 <= k && k + |r| <= |s| && r == s[k..][..|r|] &&
    (forall i :: 0 <= i < k ==> IsSpace(s[i])) &&
    (forall i :: k + |r| <= i < |s| ==> IsSpace(s[i]))
  }

  /** `s.strip()`: the text after the leading white space, up to the
      trailing white space; it neither starts nor ends with white space. */
  function Strip(s: string): (r: string)
    ensures r == [] || (!IsSpace(r[0]) && !IsSpace(r[|r| - 1]))
    ensures |r| <= |s|
    ensures Trimmed(s, |s| - |LStrip(s)|, r)
  {
    StripFacts(s);
    RStrip(LStrip(s))
  }

  /** The `Trimmed` clause of `Strip`, for its body. */
  lemma StripFacts(s: string)
    ensures Trimmed(s, |s| - |LStrip(s)|, RStrip(LStrip(s)))
  {
    var l := LStrip(s);
    var r := RStrip(l);
    var k := |s| - |l|;
    LStripRemovesSpace(s);
    RStripRemovesSpace(l);
    forall i | k + |r| <= i < |s|
      ensures IsSpace(s[i])
    {
      assert s[i] == l[i - k];
    }
  }

  /** `sep.join(parts)` */
  function Join(sep: string, parts: seq<string>): string {
    if |parts| == 0 then ""
    else if |parts| == 1 then parts[0]
    else parts[0] + sep + Join(sep, parts[1..])
  }

  /** `s.split(sep)` for a one-character separator. */
  function Split(s: string, sep: char): (parts: seq<string>)
    ensures |parts| >= 1
    ensures forall i :: 0 <= i < |parts| ==> sep !in parts[i]
  {
    if |s| == 0 then [""]
    else
      var rest := Split(s[1..], sep);
      if s[0] == sep then [""] + rest
      else [[s[0]] + rest[0]] + rest[1..]
  }

  /** `s.split(sep, 1)`: the text before the first `sep` and, when there is
      one, the text after it. */
  function SplitOnce(s: string, sep: char): (parts: seq<string>)
    ensures |parts| == 1 <==> sep !in s
    ensures |parts| == 1 || |parts| == 2
    ensures sep !in parts[0]
    ensures |parts| == 1 ==> parts[0] == s
    ensures |parts| == 2 ==> s == parts[0] + [sep] + parts[1]
  {
    var i := Find(s, sep);
    if i < 0 then [s]
    else
      assert s == s[..i] + [sep] + s[i + 1..];
      [s[..i], s[i + 1..]]
  }

  /** Number of leading characters of `t` that are not white space. */
  function TokenLength(t: string): (n: nat)
    ensures n <= |t|
    ensures forall i :: 0 <= i < n ==> !IsSpace(t[i])
    ensures n < |t| ==> IsSpace(t[n])
  {
    if |t| == 0 || IsSpace(t[0]) then 0 else 1 + TokenLength(t[1..])
  }

  /** A non-empty word without white space, as `split()` produces. */
  predicate IsToken(t: string) {
    t != [] && forall j :: 0 <= j < |t| ==> !IsSpace(t[j])
  }

  /** `s.split()`: the maximal runs of non-space characters. */
  function SplitWs(s: string): (tokens: seq<string>)
    ensures forall i :: 0 <= i < |tokens| ==> IsToken(tokens[i])
    decreases |s|
  {
    var t := LStrip(s);
    if t == [] then []
    else
      var n := TokenLength(t);
      FirstToken(t);
      var rest := SplitWs(t[n..]);
      ConsTokens(t[..n], rest);
      [t[..n]] + rest
  }

  /** A text that does not start with white space starts with a token. */
  lemma FirstToken(t: string)
    requires t != [] && !IsSpace(t[0])
    ensures 1 <= TokenLength(t) && IsToken(t[..TokenLength(t)])
  {
    var n := TokenLength(t);
    forall j | 0 <= j < n ensures !IsSpace(t[..n][j]) {
      assert t[..n][j] == t[j];
    }
  }

  lemma ConsTokens(k: string, rest: seq<string>)
    requires IsToken(k)
    requires forall i :: 0 <= i < |rest| ==> IsToken(rest[i])
    ensures forall i :: 0 <= i < |[k] + rest| ==> IsToken(([k] + rest)[i])
  {
  }

  /** `s.replace(c, '')` */
  function Remove(s: string, c: char): (r: string)
    ensures c !in r
    ensures c !in s ==> r == s
  {
    if |s| == 0 then ""
    else (if s[0] == c then "" else [s[0]]) + Remove(s[1..], c)
  }

  // ---------------------------------------------------------------------
  // Properties of the operations above

  lemma {:induction false} JoinSplit(s: string, sep: char)
    ensures Join([sep], Split(s, sep)) == s
    decreases |s|
  {
    if |s| > 0 {
      var rest := Split(s[1..], sep);
      JoinSplit(s[1..], sep);
      if s[0] == sep {
        assert s == [sep] + s[1..];
      } else if |rest| == 1 {
        assert s == [s[0]] + s[1..];
      } else {
        assert rest == [rest[0]] + rest[1..];
        assert Join([sep], rest) == rest[0] + [sep] + Join([sep], rest[1..]);
        assert s == [s[0]] + s[1..];
      }
    }
  }

  /** Splitting a piece that contains no separator, followed by the separator,
      yields that piece first. */
  lemma {:induction false} SplitPrefix(a: string, sep: char, b: string)
    requires sep !in a
    ensures Split(a + [sep] + b, sep) == [a] + Split(b, sep)
    decreases |a|
  {
    if |a| == 0 {
      assert a + [sep] + b == [sep] + b;
      assert ([sep] + b)[1..] == b;
    } else {
      assert (a + [sep] + b)[1..] == a[1..] + [sep] + b;
      SplitPrefix(a[1..], sep, b);
      assert [a[0]] + a[1..] == a;
    }
  }

  lemma {:induction false} SplitNoSep(a: string, sep: char)
    requires sep !in a
    ensures Split(a, sep) == [a]
    decreases |a|
  {
    if |a| > 0 {
      SplitNoSep(a[1..], sep);
      assert [a[0]] + a[1..] == a;
    }
  }

  /** `split` undoes `join` when no piece contains the separator. */
  lemma {:induction false} SplitJoin(parts: seq<string>, sep: char)
    requires |parts| >= 1
    requires forall i :: 0 <= i < |parts| ==> sep !in parts[i]
    ensures Split(Join([sep], parts), sep) == parts
    decreases |parts|
  {
    if |parts| == 1 {
      SplitNoSep(parts[0], sep);
    } else {
      SplitJoin(parts[1..], sep);
      SplitPrefix(parts[0], sep, Join([sep], parts[1..]));
      assert parts == [parts[0]] + parts[1..];
    }
  }

  /** `lstrip` removes white space only. */
  lemma {:induction false} LStripRemovesSpace(s: string)
    ensures forall i :: 0 <= i < |s| - |LStrip(s)| ==> IsSpace(s[i])
    decreases |s|
  {
    if |s| > 0 && IsSpace(s[0]) {
      LStripRemovesSpace(s[1..]);
    }
  }

  /** `rstrip` removes white space only. */
  lemma {:induction false} RStripRemovesSpace(s: string)
    ensures forall i :: |RStrip(s)| <= i < |s| ==> IsSpace(s[i])
    decreases |s|
  {
    if |s| > 0 && IsSpace(s[|s| - 1]) {
      RStripRemovesSpace(s[..|s| - 1]);
    }
  }

  lemma {:induction false} LStripNoLeadingSpace(s: string)
    requires s == [] || !IsSpace(s[0])
    ensures LStrip(s) == s
  {
  }

  lemma {:induction false} RStripNoTrailingSpace(s: string)
    requires s == [] || !IsSpace(s[|s| - 1])
    ensures RStrip(s) == s
  {
  }

  /** Stripping twice is stripping once. */
  lemma StripIdempotent(s: string)
    ensures Strip(Strip(s)) == Strip(s)
  {
    var r := Strip(s);
    LStripNoLeadingSpace(r);
    RStripNoTrailingSpace(r);
  }

  lemma {:induction false} TokenLengthOf(k: string, rest: string)
    requires forall j :: 0 <= j < |k| ==> !IsSpace(k[j])
    requires rest == [] || IsSpace(rest[0])
    ensures TokenLength(k + rest) == |k|
    decreases |k|
  {
    if |k| == 0 {
      assert k + rest == rest;
    } else {
      assert (k + rest)[1..] == k[1..] + rest;
      TokenLengthOf(k[1..], rest);
    }
  }

  /** `split()` undoes a single-space `join` of non-empty, space-free tokens:
      the two renderings of a class attribute agree. */
  /** A token followed by white space (or nothing) is the first word. */
  lemma SplitWsAfterToken(k: string, x: string)
    requires IsToken(k) && (x == [] || IsSpace(x[0]))
    ensures SplitWs(k + x) == [k] + SplitWs(x)
  {
    var s := k + x;
    LStripNoLeadingSpace(s);
    TokenLengthOf(k, x);
    assert s[..|k|] == k;
    assert s[|k|..] == x;
  }

  /** A leading space makes no difference to `split()`. */
  lemma SplitWsSkipsSpace(x: string)
    ensures SplitWs(" " + x) == SplitWs(x)
  {
    assert LStrip(" " + x) == LStrip(x) by {
      assert (" " + x)[1..] == x;
    }
  }

  lemma SplitWsJoinCons(k: string, ts: seq<string>)
    requires IsToken(k) && ts != [] && SplitWs(Join(" ", ts)) == ts
    ensures SplitWs(Join(" ", [k] + ts)) == [k] + ts
  {
    var rest := Join(" ", ts);
    assert ([k] + ts)[1..] == ts;
    assert Join(" ", [k] + ts) == k + (" " + rest);
    SplitWsAfterToken(k, " " + rest);
    SplitWsSkipsSpace(rest);
  }

  lemma {:induction false} SplitWsJoin(tokens: seq<string>)
    requires forall i :: 0 <= i < |tokens| ==> IsToken(tokens[i])
    ensures SplitWs(Join(" ", tokens)) == tokens
    decreases |tokens|
  {
    if |tokens| == 1 {
      var k := tokens[0];
      SplitWsAfterToken(k, "");
      assert k + "" == k;
    } else if |tokens| > 1 {
      SplitWsJoin(tokens[1..]);
      SplitWsJoinCons(tokens[0], tokens[1..]);
      assert tokens == [tokens[0]] + tokens[1..];
    }
  }



  /** A single word splits into itself. */
  lemma SplitWsToken(k: string)
    requires IsToken(k)
    ensures SplitWs(k) == [k]
  {
    SplitWsAfterToken(k, "");
    assert k + "" == k;
  }

  /** A word, a space and more text split into the word and the words of
      the text. */
  lemma SplitWsCons(k: string, x: string)
    requires IsToken(k)
    ensures SplitWs(k + (" " + x)) == [k] + SplitWs(x)
  {
    SplitWsAfterToken(k, " " + x);
    SplitWsSkipsSpace(x);
  }

  /** Three words joined by single spaces split back into those words. */
  lemma SplitWsThree(a: string, b: string, c: string)
    requires IsToken(a) && IsToken(b) && IsToken(c)
    ensures SplitWs(a + (" " + (b + (" " + c)))) == [a, b, c]
  {
    SplitWsToken(c);
    SplitWsCons(b, c);
    SplitWsCons(a, b + (" " + c));
    assert [a] + ([b] + [c]) == [a, b, c];
  }

  /** `strip()` only removes characters. */
  lemma StripAvoids(s: string, c: char)
    requires c !in s
    ensures c !in Strip(s)
  {
    var l := LStrip(s);
    assert l == s[|s| - |l|..];
    assert RStrip(l) == l[..|RStrip(l)|];
  }

  /** A character absent from the separator and from every part is absent
      from their join. */
  lemma {:induction false} JoinAvoids(sep: string, parts: seq<string>, c: char)
    requires c !in sep
    requires forall i :: 0 <= i < |parts| ==> c !in parts[i]
    ensures c !in Join(sep, parts)
    decreases |parts|
  {
    if |parts| > 1 {
      JoinAvoids(sep, parts[1..], c);
    }
  }
}
