/** String operations of the JavaScript runtime that the backend relies on:
    `trim`, `includes`, `split` on a literal separator and global literal
    replacement (`s.replace(/literal/g, rep)`), with the facts that tie
    replacement to splitting. */
module Strings {

  /** The characters `String.prototype.trim` removes: the ECMAScript
      WhiteSpace (tab, vertical tab, form feed, space, no-break space, byte
      order mark and the Unicode space separators) and LineTerminator
      (line feed, carriage return, line and paragraph separators) sets. */
  predicate IsWhitespace(c: char) {
    || c == '\t' || c == '\n' || c == '\U{B}' || c == '\U{C}' || c == '\r' || c == ' '
    || c == '\U{A0}' || c == '\U{1680}' || ('\U{2000}' <= c <= '\U{200A}')
    || c == '\U{2028}' || c == '\U{2029}' || c == '\U{202F}' || c == '\U{205F}'
    || c == '\U{3000}' || c == '\U{FEFF}'
  }

  predicate AllWhitespace(s: string) {
    forall i :: 0 <= i < |s| ==> IsWhitespace(s[i])
  }

  /** Neither end of `s` is whitespace. */
  predicate IsTrimmed(s: string) {
    s == [] || (!IsWhitespace(s[0]) && !IsWhitespace(s[|s| - 1]))
  }

  /** `s` without its leading whitespace. */
  function TrimStart(s: string): (r: string)
    ensures |r| <= |s| && r == s[|s| - |r|..]
    ensures forall i :: 0 <= i < |s| - |r| ==> IsWhitespace(s[i])
    ensures r == [] || !IsWhitespace(r[0])
  {
    if s != [] && IsWhitespace(s[0]) then
      var r := TrimStart(s[1..]);
      assert forall i :: 1 <= i < |s| - |r| ==> s[i] == s[1..][i - 1];
      r
    else s
  }

  /** `s` without its trailing whitespace. */
  function TrimEnd(s: string): (r: string)
    ensures |r| <= |s| && r == s[..|r|]
    ensures forall i :: |r| <= i < |s| ==> IsWhitespace(s[i])
    ensures r == [] || !IsWhitespace(r[|r| - 1])
  {
    if s != [] && IsWhitespace(s[|s| - 1]) then
      var r := TrimEnd(s[..|s| - 1]);
      assert forall i :: |r| <= i < |s| - 1 ==> s[i] == s[..|s| - 1][i];
      r
    else s
  }

  /** `s.trim()`: the result is the middle part of `s` left once a
      leading and a trailing whitespace run are cut off, and has no
      whitespace at either end (so the runs cut off are the maximal ones).
      It consists of characters of `s`, is empty exactly when `s` is all
      whitespace, and leaves an already trimmed string alone. */
  function Trim(s: string): (r: string)
    ensures exists a :: TrimCut(s, r, a)
    ensures IsTrimmed(r)
    ensures forall c :: c in r ==> c in s
    ensures r == [] <==> AllWhitespace(s)
    ensures IsTrimmed(s) ==> r == s
  {
    TrimHalves(s);
    TrimMiddle(s);
    TrimEnd(TrimStart(s))
  }

  /** `r` is `s[a..a + |r|]`, and everything before and after it in `s`
      is whitespace. */
  ghost predicate TrimCut(s: string, r: string, a: nat) {
    && a + |r| <= |s|
    && r == s[a..a + |r|]
    && AllWhitespace(s[..a])
    && AllWhitespace(s[a + |r|..])
  }

  /** The facts `Trim` promises, about its two halves. */
  lemma TrimHalves(s: string)
    ensures var r := TrimEnd(TrimStart(s));
      && IsTrimmed(r)
      && (forall c :: c in r ==> c in s)
      && (r == [] <==> AllWhitespace(s))
      && (IsTrimmed(s) ==> r == s)
  {
    var t := TrimStart(s);
    var r := TrimEnd(t);
    assert TrimmedParts(s, t, r);
    TrimKeeps(s, t, r);
    TrimEmpty(s, t, r);
    TrimIdentity(s, t, r);
  }

  /** `t` is `s` without a leading whitespace run, and `r` is `t` without
      a trailing one: the two halves of `Trim`. */
  ghost predicate TrimmedParts(s: string, t: string, r: string) {
    && |t| <= |s| && t == s[|s| - |t|..]
    && (forall i :: 0 <= i < |s| - |t| ==> IsWhitespace(s[i]))
    && (t == [] || !IsWhitespace(t[0]))
    && |r| <= |t| && r == t[..|r|]
    && (forall i :: |r| <= i < |t| ==> IsWhitespace(t[i]))
    && (r == [] || !IsWhitespace(r[|r| - 1]))
  }

  /** The result of the two halves is a middle part of `s`. */
  lemma TrimMiddle(s: string)
    ensures TrimCut(s, TrimEnd(TrimStart(s)), |s| - |TrimStart(s)|)
  {
    var t := TrimStart(s);
    var r := TrimEnd(t);
    assert TrimmedParts(s, t, r);
    TrimInfix(s, t, r);
  }

  lemma TrimInfix(s: string, t: string, r: string)
    requires TrimmedParts(s, t, r)
    ensures TrimCut(s, r, |s| - |t|)
  {
    var d := |s| - |t|;
    assert s[d..d + |r|] == t[..|r|];
    forall i | 0 <= i < d ensures s[..d][i] == s[i] {
    }
    var after := s[d + |r|..];
    forall i | 0 <= i < |after| ensures IsWhitespace(after[i]) {
      assert after[i] == t[|r| + i];
    }
  }

  lemma TrimKeeps(s: string, t: string, r: string)
    requires TrimmedParts(s, t, r)
    ensures IsTrimmed(r)
    ensures forall c :: c in r ==> c in s
  {
    var d := |s| - |t|;
    forall i | 0 <= i < |r| ensures r[i] == s[d + i] {
      assert r[i] == t[i];
    }
    if r != [] {
      assert r[0] == t[0];
    }
  }

  lemma TrimEmpty(s: string, t: string, r: string)
    requires TrimmedParts(s, t, r)
    ensures r == [] <==> AllWhitespace(s)
  {
    var d := |s| - |t|;
    forall i | d <= i < |s| ensures s[i] == t[i - d] {
    }
  }

  lemma TrimIdentity(s: string, t: string, r: string)
    requires TrimmedParts(s, t, r)
    ensures IsTrimmed(s) ==> r == s
  {
    if IsTrimmed(s) && s != [] {
      assert |t| == |s|;
      assert |r| == |t|;
    }
  }

  /** `p` occurs in `s` starting at position `i`. */
  predicate OccursAt(s: string, p: string, i: nat) {
    i + |p| <= |s| && s[i..i + |p|] == p
  }

  /** `s.includes(p)`. */
  predicate Contains(s: string, p: string) {
    exists i | 0 <= i <= |s| - |p| :: OccursAt(s, p, i)
  }

  /** An occurrence inside a part is an occurrence in the whole. */
  lemma OccursWithin(a: string, b: string, c: string, p: string, i: nat)
    ensures OccursAt(b, p, i) ==> OccursAt(a + b + c, p, |a| + i)
  {
    if i + |p| <= |b| {
      assert (a + b + c)[|a| + i..|a| + i + |p|] == b[i..i + |p|];
    }
  }

  /** `s.split(sep)` for a non-empty literal separator: the pieces between
      the separator occurrences found scanning left to right. */
  function Split(s: string, sep: string): (parts: seq<string>)
    requires |sep| > 0
    ensures |parts| > 0
    decreases |s|
  {
    if |s| < |sep| then [s]
    else if s[..|sep|] == sep then [[]] + Split(s[|sep|..], sep)
    else
      var rest := Split(s[1..], sep);
      [[s[0]] + rest[0]] + rest[1..]
  }

  /** `parts.join(sep)`. */
  function Join(parts: seq<string>, sep: string): string {
    if parts == [] then []
    else if |parts| == 1 then parts[0]
    else parts[0] + sep + Join(parts[1..], sep)
  }

  /** `s.replace(/pat/g, rep)` for a pattern that matches only itself and
      a replacement without `$` patterns: every occurrence found scanning
      left to right (non-overlapping) is replaced, nothing else changes. */
  function ReplaceAll(s: string, pat: string, rep: string): string
    requires |pat| > 0
    decreases |s|
  {
    if |s| < |pat| then s
    else if s[..|pat|] == pat then rep + ReplaceAll(s[|pat|..], pat, rep)
    else [s[0]] + ReplaceAll(s[1..], pat, rep)
  }

  /** The pattern alone is replaced by the replacement. */
  lemma ReplaceAllWhole(pat: string, rep: string)
    requires |pat| > 0
    ensures ReplaceAll(pat, pat, rep) == rep
  {
    assert pat[..|pat|] == pat;
    assert pat[|pat|..] == [];
  }

  /** Extending the first piece extends the joined string by the same
      prefix. */
  lemma JoinExtendFirst(c: string, parts: seq<string>, sep: string)
    requires |parts| > 0
    ensures Join([c + parts[0]] + parts[1..], sep) == c + Join(parts, sep)
  {
    var q := [c + parts[0]] + parts[1..];
    if |parts| > 1 {
      assert q[1..] == parts[1..];
    }
  }

  /** Joining a leading piece onto at least one more piece puts the
      separator between them. */
  lemma JoinCons(x: string, parts: seq<string>, sep: string)
    requires |parts| > 0
    ensures Join([x] + parts, sep) == x + sep + Join(parts, sep)
  {
    assert ([x] + parts)[1..] == parts;
  }

  /** Joining the pieces with the separator gives back the string. */
  lemma {:induction false} SplitJoin(s: string, sep: string)
    requires |sep| > 0
    ensures Join(Split(s, sep), sep) == s
    decreases |s|
  {
    if |s| < |sep| {
      assert Split(s, sep) == [s];
    } else if s[..|sep|] == sep {
      var rest := Split(s[|sep|..], sep);
      assert Split(s, sep) == [[]] + rest;
      SplitJoin(s[|sep|..], sep);
      JoinCons([], rest, sep);
      assert s == s[..|sep|] + s[|sep|..];
    } else {
      var rest := Split(s[1..], sep);
      assert Split(s, sep) == [[s[0]] + rest[0]] + rest[1..];
      SplitJoin(s[1..], sep);
      JoinExtendFirst([s[0]], rest, sep);
      assert s == [s[0]] + s[1..];
    }
  }

  /** Global replacement is splitting at the pattern and joining with the
      replacement. Together with `SplitJoin` and `SplitPiecesFree` this
      says: each occurrence found left to right is replaced, and the text
      between occurrences is kept verbatim. */
  lemma {:induction false} ReplaceAllIsSplitJoin(s: string, pat: string, rep: string)
    requires |pat| > 0
    ensures ReplaceAll(s, pat, rep) == Join(Split(s, pat), rep)
    decreases |s|
  {
    if |s| < |pat| {
      assert Split(s, pat) == [s];
    } else if s[..|pat|] == pat {
      var rest := Split(s[|pat|..], pat);
      assert Split(s, pat) == [[]] + rest;
      ReplaceAllIsSplitJoin(s[|pat|..], pat, rep);
      JoinCons([], rest, rep);
    } else {
      var rest := Split(s[1..], pat);
      assert Split(s, pat) == [[s[0]] + rest[0]] + rest[1..];
      ReplaceAllIsSplitJoin(s[1..], pat, rep);
      JoinExtendFirst([s[0]], rest, rep);
    }
  }

  /** The first piece is a prefix of the string. */
  lemma {:induction false} SplitFirstIsPrefix(s: string, sep: string)
    requires |sep| > 0
    ensures |Split(s, sep)[0]| <= |s|
    ensures Split(s, sep)[0] == s[..|Split(s, sep)[0]|]
    decreases |s|
  {
    if |s| >= |sep| && s[..|sep|] != sep {
      SplitFirstIsPrefix(s[1..], sep);
    }
  }

  /** No piece contains the separator: every occurrence was cut out. */
  lemma {:induction false} SplitPiecesFree(s: string, sep: string)
    requires |sep| > 0
    ensures forall k :: 0 <= k < |Split(s, sep)| ==> !Contains(Split(s, sep)[k], sep)
    decreases |s|
  {
    var parts := Split(s, sep);
    if |s| < |sep| {
      assert parts == [s];
    } else if s[..|sep|] == sep {
      SplitPiecesFree(s[|sep|..], sep);
      assert parts[1..] == Split(s[|sep|..], sep);
      forall k | 0 <= k < |parts| ensures !Contains(parts[k], sep) {
        if k > 0 {
          assert parts[k] == Split(s[|sep|..], sep)[k - 1];
        }
      }
    } else {
      var rest := Split(s[1..], sep);
      SplitPiecesFree(s[1..], sep);
      SplitFirstIsPrefix(s[1..], sep);
      var first := [s[0]] + rest[0];
      assert first == s[..|first|];
      forall i | 0 <= i <= |first| - |sep| ensures !OccursAt(first, sep, i) {
        if i == 0 {
          assert first[..|sep|] == s[..|sep|];
        } else {
          assert first[i..i + |sep|] == rest[0][i - 1..i - 1 + |sep|];
          assert !OccursAt(rest[0], sep, i - 1);
        }
      }
      forall k | 0 <= k < |parts| ensures !Contains(parts[k], sep) {
        if k > 0 {
          assert parts[k] == rest[k];
        }
      }
    }
  }

  /** A string without the pattern is left unchanged by replacement. */
  lemma {:induction false} ReplaceAllAbsent(s: string, pat: string, rep: string)
    requires |pat| > 0 && !Contains(s, pat)
    ensures ReplaceAll(s, pat, rep) == s
    decreases |s|
  {
    if |s| >= |pat| {
      assert !OccursAt(s, pat, 0);
      assert !Contains(s[1..], pat) by {
        forall i | 0 <= i <= |s[1..]| - |pat| ensures !OccursAt(s[1..], pat, i) {
          OccursWithin([s[0]], s[1..], [], pat, i);
          assert [s[0]] + s[1..] + [] == s;
        }
      }
      ReplaceAllAbsent(s[1..], pat, rep);
      assert s == [s[0]] + s[1..];
    }
  }
}
