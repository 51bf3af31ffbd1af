/**
  The string operations the action relies on: the `\s` character class of
  ECMAScript regular expressions, `replace(/,/g, '')`, `split(/\s+/)`,
  `trim()`, `endsWith` and `Array.prototype.join`.
 */
module Text {

  /** The WhiteSpace code points of ECMAScript: tab, vertical tab, form
      feed, the byte order mark and the Unicode space separators (category
      Zs). */
  const WhiteSpace: set<char> := {
    '\t', '\U{000B}', '\U{000C}', '\U{FEFF}',
    ' ', '\U{00A0}', '\U{1680}',
    '\U{2000}', '\U{2001}', '\U{2002}', '\U{2003}', '\U{2004}', '\U{2005}',
    '\U{2006}', '\U{2007}', '\U{2008}', '\U{2009}', '\U{200A}',
    '\U{202F}', '\U{205F}', '\U{3000}'
  }

  /** The LineTerminator code points of ECMAScript. */
  const LineTerminators: set<char> := {'\n', '\r', '\U{2028}', '\U{2029}'}

  /** A character matched by `\s`, which is also the set `String.prototype.trim`
      strips. The body tests ranges; `IsSpaceCategories` ties it to the two
      categories above. */
  predicate IsSpace(c: char) {
    if c <= ' ' then c == ' ' || ('\t' <= c <= '\r')
    else if c < '\U{00A0}' then false
    else
      || c == '\U{00A0}' || c == '\U{1680}'
      || ('\U{2000}' <= c <= '\U{200A}')
      || c == '\U{2028}' || c == '\U{2029}' || c == '\U{202F}' || c == '\U{205F}'
      || c == '\U{3000}' || c == '\U{FEFF}'
  }

  lemma IsSpaceCategories(c: char)
    ensures IsSpace(c) <==> c in WhiteSpace + LineTerminators
  {
  }

  predicate NoSpace(s: string) {
    forall i :: 0 <= i < |s| ==> !IsSpace(s[i])
  }

  predicate EndsWith(s: string, suffix: string) {
    |suffix| <= |s| && s[|s| - |suffix|..] == suffix
  }

  /** `s.replace(/,/g, '')`: every comma is deleted, nothing else changes. */
  function RemoveCommas(s: string): (r: string)
    ensures forall c :: c in r <==> c in s && c != ','
    ensures ',' !in s ==> r == s
    ensures |r| <= |s|
  {
    if s == [] then []
    else if s[0] == ',' then RemoveCommas(s[1..])
    else [s[0]] + RemoveCommas(s[1..])
  }

  lemma {:induction false} RemoveCommasAppend(a: string, b: string)
    ensures RemoveCommas(a + b) == RemoveCommas(a) + RemoveCommas(b)
  {
    if a == [] {
      assert a + b == b;
    } else {
      assert (a + b)[0] == a[0];
      assert (a + b)[1..] == a[1..] + b;
      RemoveCommasAppend(a[1..], b);
    }
  }

  /** Leading whitespace removed: the result is the longest suffix of `s`
      that does not start with whitespace. */
  function TrimStart(s: string): (r: string)
    ensures |r| <= |s| && r == s[|s| - |r|..]
    ensures forall i :: 0 <= i < |s| - |r| ==> IsSpace(s[i])
    ensures r == [] || !IsSpace(r[0])
    ensures s != [] && IsSpace(s[0]) ==> |r| < |s|
    ensures forall c :: c in r ==> c in s
  {
    if s != [] && IsSpace(s[0]) then TrimStart(s[1..]) else s
  }

  /** Trailing whitespace removed: the longest prefix of `s` that does not
      end with whitespace. */
  function TrimEnd(s: string): (r: string)
    ensures |r| <= |s| && r == s[..|r|]
    ensures forall i :: |r| <= i < |s| ==> IsSpace(s[i])
    ensures r == [] || !IsSpace(r[|r| - 1])
  {
    if s != [] && IsSpace(s[|s| - 1]) then TrimEnd(s[..|s| - 1]) else s
  }

  /** `s.trim()`: the input with its leading and trailing whitespace removed
      and its middle kept as it is. */
  function Trim(s: string): (r: string)
    ensures r == [] || (!IsSpace(r[0]) && !IsSpace(r[|r| - 1]))
    ensures s != [] && !IsSpace(s[0]) && !IsSpace(s[|s| - 1]) ==> r == s
    ensures exists k :: TrimmedAt(s, r, k)
  {
    var t := TrimStart(s);
    var r := TrimEnd(t);
    TrimmedAtStart(s, t, r);
    r
  }

  /** A whitespace-bordered suffix `t` of `s`, cut back to a prefix `r`
      followed by whitespace, is a slice of `s` bordered by whitespace. */
  lemma TrimmedAtStart(s: string, t: string, r: string)
    requires |t| <= |s| && t == s[|s| - |t|..]
    requires forall i :: 0 <= i < |s| - |t| ==> IsSpace(s[i])
    requires |r| <= |t| && r == t[..|r|]
    requires forall i :: |r| <= i < |t| ==> IsSpace(t[i])
    ensures TrimmedAt(s, r, |s| - |t|)
  {
    var k := |s| - |t|;
    assert r == s[k..k + |r|];
    forall i | k + |r| <= i < |s|
      ensures IsSpace(s[i])
    {
      assert s[i] == t[i - k];
    }
  }

  /** `r` is the slice of `s` starting at `k`, and everything of `s` outside
      that slice is whitespace. */
  predicate TrimmedAt(s: string, r: string, k: int) {
    && 0 <= k <= |s| - |r|
    && r == s[k..k + |r|]
    && (forall i :: 0 <= i < k ==> IsSpace(s[i]))
    && (forall i :: k + |r| <= i < |s| ==> IsSpace(s[i]))
  }

  /** `s.split(/\s+/)`: the pieces between maximal runs of whitespace. A
      leading run yields an empty first piece, a trailing run an empty last
      piece, and the empty string yields one empty piece. */
  function Split(s: string): (r: seq<string>)
    ensures |r| >= 1
    ensures forall i :: 0 <= i < |r| ==> NoSpace(r[i])
    ensures forall i :: 0 < i < |r| - 1 ==> r[i] != []
    ensures s != [] && !IsSpace(s[0]) ==> r[0] != []
    ensures s != [] && IsSpace(s[0]) ==> r[0] == []
    ensures s != [] && IsSpace(s[|s| - 1]) ==> |r| >= 2 && r[|r| - 1] == []
    decreases |s|
  {
    if s == [] then [[]]
    else if IsSpace(s[0]) then
      var rest := TrimStart(s);
      assert rest != [] ==> rest[|rest| - 1] == s[|s| - 1];
      [[]] + Split(rest)
    else
      var t := Split(s[1..]);
      [[s[0]] + t[0]] + t[1..]
  }

  /** Every character of every piece in `ts` occurs in `s`. */
  predicate CharsFrom(ts: seq<string>, s: string) {
    forall i, c :: 0 <= i < |ts| && c in ts[i] ==> c in s
  }

  /** Splitting invents no characters: every character of a piece occurs
      in the input. */
  lemma {:induction false} SplitChars(s: string)
    ensures CharsFrom(Split(s), s)
    decreases |s|
  {
    if s == [] {
    } else if IsSpace(s[0]) {
      var rest := TrimStart(s);
      var ts := Split(rest);
      assert Split(s) == [[]] + ts;
      assert CharsFrom(ts, rest) by {
        SplitChars(rest);
      }
      CharsFromEmptyFront(ts, rest, s);
    } else {
      var t := Split(s[1..]);
      assert Split(s) == [[s[0]] + t[0]] + t[1..];
      assert CharsFrom(t, s[1..]) by {
        SplitChars(s[1..]);
      }
      CharsFromGlue(t, s);
    }
  }

  lemma CharsFromEmptyFront(ts: seq<string>, rest: string, s: string)
    requires CharsFrom(ts, rest)
    requires forall c :: c in rest ==> c in s
    ensures CharsFrom([[]] + ts, s)
  {
    forall i, c | 0 <= i < |[[]] + ts| && c in ([[]] + ts)[i]
      ensures c in s
    {
      assert c in ts[i - 1];
    }
  }

  lemma CharsFromGlue(t: seq<string>, s: string)
    requires t != [] && s != []
    requires CharsFrom(t, s[1..])
    ensures CharsFrom([[s[0]] + t[0]] + t[1..], s)
  {
    var ts := [[s[0]] + t[0]] + t[1..];
    assert s == [s[0]] + s[1..];
    forall i, c | 0 <= i < |ts| && c in ts[i]
      ensures c in s
    {
      if i == 0 {
        assert c == s[0] || c in t[0];
      } else {
        assert c in t[i];
      }
    }
  }

  /** `ts.join(sep)`. */
  function Join(ts: seq<string>, sep: string): (r: string)
  {
    if |ts| == 0 then []
    else if |ts| == 1 then ts[0]
    else ts[0] + sep + Join(ts[1..], sep)
  }

  lemma {:induction false} JoinSnoc(ts: seq<string>, t: string, sep: string)
    requires |ts| >= 1
    ensures Join(ts + [t], sep) == Join(ts, sep) + sep + t
  {
    if |ts| == 1 {
      assert ts + [t] == [ts[0], t];
      assert [ts[0], t][1..] == [t];
    } else {
      assert (ts + [t])[1..] == ts[1..] + [t];
      JoinSnoc(ts[1..], t, sep);
    }
  }

  /** A joined sequence starts with its first piece. */
  lemma {:induction false} JoinPrefix(ts: seq<string>, sep: string)
    requires |ts| >= 1
    ensures ts[0] <= Join(ts, sep)
  {
    if |ts| > 1 {
      var r := Join(ts, sep);
      assert r == ts[0] + (sep + Join(ts[1..], sep));
      assert r[..|ts[0]|] == ts[0];
    }
  }

  /** A joined sequence ends with its last piece. */
  lemma {:induction false} JoinEnd(ts: seq<string>, sep: string)
    requires |ts| >= 1
    ensures EndsWith(Join(ts, sep), ts[|ts| - 1])
  {
    if |ts| > 1 {
      JoinEnd(ts[1..], sep);
      var rest := Join(ts[1..], sep);
      var last := ts[|ts| - 1];
      var r := Join(ts, sep);
      assert r == (ts[0] + sep) + rest;
      assert r[|r| - |last|..] == rest[|rest| - |last|..];
    }
  }

  /** Joining two non-empty lists is joining each and putting the separator
      between them. */
  lemma {:induction false} JoinAppend(a: seq<string>, b: seq<string>, sep: string)
    requires |a| >= 1 && |b| >= 1
    ensures Join(a + b, sep) == Join(a, sep) + sep + Join(b, sep)
    decreases |b|
  {
    if |b| == 1 {
      JoinSnoc(a, b[0], sep);
      assert b == [b[0]];
    } else {
      var b' := b[..|b| - 1];
      var x := b[|b| - 1];
      assert b == b' + [x];
      assert a + b == (a + b') + [x];
      JoinSnoc(a + b', x, sep);
      JoinAppend(a, b', sep);
      JoinSnoc(b', x, sep);
    }
  }

  /** A joined sequence holds only characters of its pieces and separator. */
  lemma {:induction false} JoinChars(ts: seq<string>, sep: string)
    ensures forall c :: c in Join(ts, sep) ==> c in sep || exists i :: 0 <= i < |ts| && c in ts[i]
  {
    if |ts| > 1 {
      JoinChars(ts[1..], sep);
      forall c | c in Join(ts, sep)
        ensures c in sep || exists i :: 0 <= i < |ts| && c in ts[i]
      {
        if c in ts[0] {
        } else if c in sep {
        } else {
          assert c in Join(ts[1..], sep);
          var i :| 0 <= i < |ts[1..]| && c in ts[1..][i];
          assert c in ts[i + 1];
        }
      }
    }
  }

  /** The pieces of a space-joined sequence: a word without whitespace in
      front of any string stays glued to the first piece of that string. */
  lemma {:induction false} SplitPrefix(w: string, u: string)
    requires NoSpace(w)
    ensures Split(w + u) == [w + Split(u)[0]] + Split(u)[1..]
    decreases |w|, 1
  {
    if w == [] {
      assert w + u == u;
      assert w + Split(u)[0] == Split(u)[0];
      assert [Split(u)[0]] + Split(u)[1..] == Split(u);
    } else {
      SplitPrefixStep(w, u);
    }
  }

  lemma {:induction false} SplitPrefixStep(w: string, u: string)
    requires w != [] && NoSpace(w)
    ensures Split(w + u) == [w + Split(u)[0]] + Split(u)[1..]
    decreases |w|, 0
  {
    var r := Split(u);
    var w' := w[1..];
    var t := Split(w' + u);
    var whole := Split(w + u);
    assert whole == [[w[0]] + t[0]] + t[1..] by {
      NoSpaceTail(w);
      SplitConsAppend(w, u);
    }
    assert t == [w' + r[0]] + r[1..] by {
      NoSpaceTail(w);
      SplitPrefix(w', u);
    }
    Regather(whole, w, t, r);
  }

  /** Sequence bookkeeping for SplitPrefixStep, kept apart from Split. */
  lemma Regather(whole: seq<string>, w: string, t: seq<string>, r: seq<string>)
    requires w != [] && t != [] && r != []
    requires whole == [[w[0]] + t[0]] + t[1..]
    requires t == [w[1..] + r[0]] + r[1..]
    ensures whole == [w + r[0]] + r[1..]
  {
    assert [w[0]] + (w[1..] + r[0]) == w + r[0] by {
      assert w == [w[0]] + w[1..];
    }
  }

  /** Dropping the first character of a word leaves a word. */
  lemma NoSpaceTail(w: string)
    requires w != [] && NoSpace(w)
    ensures !IsSpace(w[0]) && NoSpace(w[1..])
  {
    assert forall i :: 0 <= i < |w[1..]| ==> w[1..][i] == w[i + 1];
  }

  /** A first character other than whitespace joins the first piece of
      what follows it. */
  lemma SplitConsAppend(w: string, u: string)
    requires w != [] && !IsSpace(w[0])
    ensures var t := Split(w[1..] + u);
      Split(w + u) == [[w[0]] + t[0]] + t[1..]
  {
    assert (w + u)[0] == w[0];
    assert (w + u)[1..] == w[1..] + u;
  }

  /** A run of whitespace in front of a string that does not start with
      whitespace contributes exactly one empty first piece. */
  lemma SplitLeadingRun(ws: string, u: string)
    requires ws != [] && forall i :: 0 <= i < |ws| ==> IsSpace(ws[i])
    requires u == [] || !IsSpace(u[0])
    ensures Split(ws + u) == [[]] + Split(u)
  {
    TrimStartRun(ws, u);
  }

  lemma SplitLeadingSpace(u: string)
    requires u == [] || !IsSpace(u[0])
    ensures Split(" " + u) == [[]] + Split(u)
  {
    var s := " " + u;
    assert s[0] == ' ' && s[1..] == u;
    assert TrimStart(s) == u;
  }

  lemma {:induction false} TrimStartRun(ws: string, u: string)
    requires forall i :: 0 <= i < |ws| ==> IsSpace(ws[i])
    requires u == [] || !IsSpace(u[0])
    ensures TrimStart(ws + u) == u
  {
    if ws == [] {
      assert ws + u == u;
    } else {
      assert (ws + u)[0] == ws[0];
      assert (ws + u)[1..] == ws[1..] + u;
      TrimStartRun(ws[1..], u);
    }
  }

  /** Removing leading whitespace only ever looks at the front: once `a`
      ends in something other than whitespace, what follows is kept. */
  lemma {:induction false} TrimStartAppend(a: string, u: string)
    requires a != [] && !IsSpace(a[|a| - 1])
    ensures TrimStart(a + u) == TrimStart(a) + u
  {
    assert (a + u)[0] == a[0];
    if IsSpace(a[0]) {
      assert (a + u)[1..] == a[1..] + u;
      TrimStartAppend(a[1..], u);
    }
  }

  /** The pieces of `a + u` from those of `a` and `u` when `a` does not end
      in whitespace: the last piece of `a` and the first of `u` become one. */
  function Glue(l: seq<string>, r: seq<string>): (g: seq<string>)
    requires |l| >= 1 && |r| >= 1
  {
    l[..|l| - 1] + [l[|l| - 1] + r[0]] + r[1..]
  }

  lemma GlueUnit(r: seq<string>)
    requires |r| >= 1
    ensures Glue([[]], r) == r
  {
    assert [] + r[0] == r[0];
  }

  lemma GlueEmptyFront(l: seq<string>, r: seq<string>)
    requires |l| >= 1 && |r| >= 1
    ensures Glue([[]] + l, r) == [[]] + Glue(l, r)
  {
    var l2 := [[]] + l;
    assert l2[..|l2| - 1] == [[]] + l[..|l| - 1];
    assert l2[|l2| - 1] == l[|l| - 1];
  }

  lemma GlueCons(c: char, l: seq<string>, r: seq<string>)
    requires |l| >= 1 && |r| >= 1
    ensures var t := Glue(l, r);
      |t| >= 1 && Glue([[c] + l[0]] + l[1..], r) == [[c] + t[0]] + t[1..]
  {
    var t := Glue(l, r);
    var l2 := [[c] + l[0]] + l[1..];
    if |l| == 1 {
      assert l2 == [[c] + l[0]];
      assert l2[..0] == [];
      assert t == [l[0] + r[0]] + r[1..];
      assert [c] + l[0] + r[0] == [c] + (l[0] + r[0]);
    } else {
      assert l2[..|l2| - 1] == [[c] + l[0]] + l[1..|l| - 1];
      assert l2[|l2| - 1] == l[|l| - 1];
      assert t[0] == l[0];
      assert t[1..] == l[1..|l| - 1] + [l[|l| - 1] + r[0]] + r[1..];
    }
  }

  /** Splitting a concatenation whose left part does not end in whitespace:
      the last piece of the left part and the first piece of the right part
      are glued together, every other piece is kept. */
  lemma {:induction false} SplitAppend(a: string, u: string)
    requires a == [] || !IsSpace(a[|a| - 1])
    ensures Split(a + u) == Glue(Split(a), Split(u))
    decreases |a|
  {
    if a == [] {
      assert a + u == u;
      GlueUnit(Split(u));
    } else if IsSpace(a[0]) {
      SplitAppendSpace(a, u);
    } else {
      SplitAppendWord(a, u);
    }
  }

  lemma {:induction false} SplitAppendSpace(a: string, u: string)
    requires a != [] && IsSpace(a[0]) && !IsSpace(a[|a| - 1])
    ensures Split(a + u) == Glue(Split(a), Split(u))
    decreases |a|, 0
  {
    var a' := TrimStart(a);
    assert a' != [] && a'[|a'| - 1] == a[|a| - 1];
    assert Split(a + u) == [[]] + Split(a' + u) by {
      TrimStartAppend(a, u);
      assert (a + u)[0] == a[0];
    }
    SplitAppend(a', u);
    GlueEmptyFront(Split(a'), Split(u));
  }

  lemma {:induction false} SplitAppendWord(a: string, u: string)
    requires a != [] && !IsSpace(a[0]) && !IsSpace(a[|a| - 1])
    ensures Split(a + u) == Glue(Split(a), Split(u))
    decreases |a|, 0
  {
    var a' := a[1..];
    assert a' == [] || a'[|a'| - 1] == a[|a| - 1];
    assert Split(a + u) == [[a[0]] + Split(a' + u)[0]] + Split(a' + u)[1..] by {
      assert (a + u)[0] == a[0];
      assert (a + u)[1..] == a' + u;
    }
    SplitAppend(a', u);
    GlueCons(a[0], Split(a'), Split(u));
  }

  /** `split(/\s+/)` treats every maximal run of whitespace, whatever its
      length and whichever whitespace characters it holds, like a single
      space. */
  lemma SplitRun(a: string, ws: string, b: string)
    requires ws != [] && forall i :: 0 <= i < |ws| ==> IsSpace(ws[i])
    requires a == [] || !IsSpace(a[|a| - 1])
    requires b == [] || !IsSpace(b[0])
    ensures Split(a + ws + b) == Split(a + " " + b)
  {
    SplitRunGlue(a, ws, b);
    SplitSpaceGlue(a, b);
  }

  lemma SplitRunGlue(a: string, ws: string, b: string)
    requires ws != [] && forall i :: 0 <= i < |ws| ==> IsSpace(ws[i])
    requires a == [] || !IsSpace(a[|a| - 1])
    requires b == [] || !IsSpace(b[0])
    ensures Split(a + ws + b) == Glue(Split(a), [[]] + Split(b))
  {
    assert a + ws + b == a + (ws + b);
    assert Split(ws + b) == [[]] + Split(b) by {
      SplitLeadingRun(ws, b);
    }
    assert Split(a + (ws + b)) == Glue(Split(a), Split(ws + b)) by {
      SplitAppend(a, ws + b);
    }
  }

  lemma SplitSpaceGlue(a: string, b: string)
    requires a == [] || !IsSpace(a[|a| - 1])
    requires b == [] || !IsSpace(b[0])
    ensures Split(a + " " + b) == Glue(Split(a), [[]] + Split(b))
  {
    assert a + " " + b == a + (" " + b);
    SplitLeadingSpace(b);
    SplitAppend(a, " " + b);
  }

  /** Joining with single spaces and splitting again gives back the pieces,
      for every sequence `Split` can produce: pieces without whitespace,
      only the first and last of them possibly empty. */
  lemma {:induction false} SplitJoin(ts: seq<string>)
    requires |ts| >= 1
    requires forall i :: 0 <= i < |ts| ==> NoSpace(ts[i])
    requires forall i :: 0 < i < |ts| - 1 ==> ts[i] != []
    ensures Split(Join(ts, " ")) == ts
  {
    if |ts| == 1 {
      SplitWord(ts[0]);
    } else {
      var tail := ts[1..];
      var rest := Join(tail, " ");
      assert Split(rest) == tail by {
        SplitJoin(tail);
      }
      assert rest == [] || !IsSpace(rest[0]) by {
        JoinHead(tail);
      }
      assert Join(ts, " ") == ts[0] + (" " + rest);
      assert Split(ts[0] + (" " + rest)) == [ts[0]] + Split(rest) by {
        SplitAfterWord(ts[0], rest);
      }
      assert [ts[0]] + tail == ts;
    }
  }

  /** A word without whitespace is a single piece. */
  lemma SplitWord(w: string)
    requires NoSpace(w)
    ensures Split(w) == [w]
  {
    SplitPrefix(w, []);
    assert w + [] == w;
  }

  /** A space-joined sequence whose interior pieces are non-empty starts
      with something other than whitespace, or is empty. */
  lemma JoinHead(ts: seq<string>)
    requires |ts| >= 1
    requires forall i :: 0 <= i < |ts| ==> NoSpace(ts[i])
    requires forall i :: 0 <= i < |ts| - 1 ==> ts[i] != []
    ensures Join(ts, " ") == [] || !IsSpace(Join(ts, " ")[0])
  {
    if |ts| > 1 {
      assert ts[0] != [] && NoSpace(ts[0]);
      assert Join(ts, " ") == ts[0] + " " + Join(ts[1..], " ");
    }
  }

  /** A word, one space, then a string that does not start with whitespace:
      the word is a piece of its own. */
  lemma SplitAfterWord(w: string, rest: string)
    requires NoSpace(w)
    requires rest == [] || !IsSpace(rest[0])
    ensures Split(w + (" " + rest)) == [w] + Split(rest)
  {
    var u := " " + rest;
    SplitLeadingSpace(rest);
    SplitPrefix(w, u);
    assert w + [] == w;
  }

  /** The first and last characters of a space-joined sequence of non-empty
      pieces are those of the first and last piece. */
  lemma {:induction false} JoinEnds(ts: seq<string>)
    requires |ts| >= 1
    requires forall i :: 0 <= i < |ts| ==> ts[i] != []
    ensures Join(ts, " ") != []
    ensures Join(ts, " ")[0] == ts[0][0]
    ensures Join(ts, " ")[|Join(ts, " ")| - 1] == ts[|ts| - 1][|ts[|ts| - 1]| - 1]
  {
    if |ts| > 1 {
      JoinEnds(ts[1..]);
    }
  }

  /** Appending each piece followed by one space and trimming the result
      gives the pieces joined by single spaces, when every piece is
      non-empty and free of whitespace at its ends. */
  lemma {:induction false} TrimTrailingSpace(ts: seq<string>)
    requires |ts| >= 1
    requires forall i :: 0 <= i < |ts| ==> ts[i] != [] && NoSpace(ts[i])
    ensures Trim(Join(ts, " ") + " ") == Join(ts, " ")
  {
    var j := Join(ts, " ");
    JoinEnds(ts);
    var first := ts[0];
    var last := ts[|ts| - 1];
    assert !IsSpace(first[0]);
    assert !IsSpace(last[|last| - 1]);
    var s := j + " ";
    assert s[0] == j[0];
    assert TrimStart(s) == s;
    assert s[|s| - 1] == ' ';
    assert s[..|s| - 1] == j;
    assert TrimEnd(s) == TrimEnd(j);
    assert TrimEnd(j) == j;
  }
}
