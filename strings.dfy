/**
 * The Python string operations the core relies on: `str.strip()`,
 * `str.split(sep)`, `sep.join(parts)`, ASCII `str.lower()` and the
 * substring test `k in s`.
 */
module Strings {

  /** Python's `str.isspace()` for one character: the set `str.strip()` removes. */
  predicate IsSpace(c: char) {
    || '\t' <= c <= '\r'
    || '\U{1c}' <= c <= '\U{1f}'
    || c == ' '
    || c == '\U{85}'
    || c == '\U{a0}'
    || c == '\U{1680}'
    || '\U{2000}' <= c <= '\U{200a}'
    || c == '\U{2028}'
    || c == '\U{2029}'
    || c == '\U{202f}'
    || c == '\U{205f}'
    || c == '\U{3000}'
  }

  /** Every character is whitespace (the string is falsy after `strip()`). */
  predicate IsBlank(s: string) {
    forall i :: 0 <= i < |s| ==> IsSpace(s[i])
  }

  /** No leading or trailing whitespace. */
  predicate IsStripped(s: string) {
    s == [] || (!IsSpace(s[0]) && !IsSpace(s[|s| - 1]))
  }

  /** `s.lstrip()`: the longest suffix of `s` that follows only whitespace. */
  function TrimStart(s: string): (r: string)
    ensures |r| <= |s|
    decreases |s|
  {
    if |s| > 0 && IsSpace(s[0]) then TrimStart(s[1..]) else s
  }

  /** `lstrip()` drops leading whitespace, and only that. */
  lemma {:induction false} TrimStartFacts(s: string)
    ensures var r := TrimStart(s); r == s[|s| - |r|..]
    ensures var r := TrimStart(s); forall i :: 0 <= i < |s| - |r| ==> IsSpace(s[i])
    ensures var r := TrimStart(s); r == [] || !IsSpace(r[0])
    decreases |s|
  {
    if |s| > 0 && IsSpace(s[0]) {
      TrimStartFacts(s[1..]);
      var r := TrimStart(s[1..]);
      assert s[1..][|s| - 1 - |r|..] == s[|s| - |r|..];
      forall i | 1 <= i < |s| - |r| ensures IsSpace(s[i]) {
        assert s[i] == s[1..][i - 1];
      }
    }
  }

  /** `s.rstrip()`: the longest prefix of `s` followed only by whitespace. */
  function TrimEnd(s: string): (r: string)
    ensures |r| <= |s|
    decreases |s|
  {
    if |s| > 0 && IsSpace(s[|s| - 1]) then TrimEnd(s[..|s| - 1]) else s
  }

  /** `rstrip()` drops trailing whitespace, and only that. */
  lemma {:induction false} TrimEndFacts(s: string)
    ensures var r := TrimEnd(s); r == s[..|r|]
    ensures var r := TrimEnd(s); forall i :: |r| <= i < |s| ==> IsSpace(s[i])
    ensures var r := TrimEnd(s); r == [] || !IsSpace(r[|r| - 1])
    decreases |s|
  {
    if |s| > 0 && IsSpace(s[|s| - 1]) {
      TrimEndFacts(s[..|s| - 1]);
      var r := TrimEnd(s[..|s| - 1]);
      assert s[..|s| - 1][..|r|] == s[..|r|];
      forall i | |r| <= i < |s| - 1 ensures IsSpace(s[i]) {
        assert s[i] == s[..|s| - 1][i];
      }
    }
  }

  /** `s.strip()`. */
  function Strip(s: string): (r: string)
    ensures IsStripped(r)
    ensures r == [] <==> IsBlank(s)
    ensures |r| <= |s|
  {
    var t := TrimStart(s);
    TrimStartFacts(s);
    TrimEndFacts(t);
    var r := TrimEnd(t);
    assert r == [] ==> IsBlank(s) by {
      if r == [] {
        assert t == [];
      }
    }
    r
  }

  /** `strip()` only removes characters. */
  lemma StripKeepsChars(s: string)
    ensures forall c :: c in Strip(s) ==> c in s
  {
    var i := StripInfix(s);
    var r := Strip(s);
    forall c | c in r ensures c in s {
      var j :| 0 <= j < |r| && r[j] == c;
      assert s[i + j] == c;
    }
  }

  /** Stripping a string that has no outer whitespace leaves it as it is. */
  lemma StripStripped(s: string)
    requires IsStripped(s)
    ensures Strip(s) == s
  {
  }

  /** `strip()` is idempotent. */
  lemma StripIdempotent(s: string)
    ensures Strip(Strip(s)) == Strip(s)
  {
    StripStripped(Strip(s));
  }

  /** Whitespace around a stripped, non-empty core is exactly what `strip()` removes. */
  lemma StripPadded(pre: string, x: string, post: string)
    requires IsBlank(pre) && IsBlank(post) && IsStripped(x) && x != []
    ensures Strip(pre + x + post) == x
  {
    var s := pre + x + post;
    var t := TrimStart(s);
    TrimStartFacts(s);
    TrimEndFacts(t);
    assert forall i :: 0 <= i < |pre| ==> s[i] == pre[i];
    assert s[|pre|] == x[0];
    assert |s| - |t| == |pre|;
    assert t == x + post;
    var r := TrimEnd(t);
    assert forall i :: |x| <= i < |t| ==> t[i] == post[i - |x|];
    assert t[|x| - 1] == x[|x| - 1];
    assert |r| == |x|;
    assert r == x;
  }

  /** The stripped string sits inside the original one. */
  lemma StripInfix(s: string) returns (i: nat)
    ensures i + |Strip(s)| <= |s| && s[i..i + |Strip(s)|] == Strip(s)
  {
    var t := TrimStart(s);
    TrimStartFacts(s);
    TrimEndFacts(t);
    i := |s| - |t|;
    var r := TrimEnd(t);
    assert r == t[..|r|];
    assert s[i..i + |r|] == t[..|r|];
  }

  /** `s.split(sep)` for a one-character separator: the pieces between separators, kept in order. */
  function Split(s: string, sep: char): (r: seq<string>)
    ensures |r| >= 1
    ensures forall p :: p in r ==> sep !in p
    decreases |s|
  {
    if s == [] then [""]
    else
      var rest := Split(s[1..], sep);
      if s[0] == sep then [""] + rest
      else [[s[0]] + rest[0]] + rest[1..]
  }

  /** The combined length of the parts. */
  function TotalLength(parts: seq<string>): nat
    decreases |parts|
  {
    if parts == [] then 0 else |parts[0]| + TotalLength(parts[1..])
  }

  /** `sep.join(parts)`: the parts in order, with exactly one separator between neighbours. */
  function Join(parts: seq<string>, sep: string): (r: string)
    ensures |parts| >= 1 ==> |r| == TotalLength(parts) + (|parts| - 1) * |sep|
    ensures |parts| >= 1 ==> r[..|parts[0]|] == parts[0]
    ensures |parts| == 0 ==> r == ""
    ensures |parts| == 1 ==> r == parts[0]
    decreases |parts|
  {
    if |parts| == 0 then ""
    else if |parts| == 1 then parts[0]
    else parts[0] + sep + Join(parts[1..], sep)
  }

  /** Joining two non-empty lists of parts puts one separator between their joins. */
  lemma {:induction false} JoinAppend(a: seq<string>, b: seq<string>, sep: string)
    requires |a| >= 1 && |b| >= 1
    ensures Join(a + b, sep) == Join(a, sep) + sep + Join(b, sep)
    decreases |a|
  {
    assert (a + b)[0] == a[0];
    if |a| == 1 {
      assert (a + b)[1..] == b;
    } else {
      assert (a + b)[1..] == a[1..] + b;
      JoinAppend(a[1..], b, sep);
    }
  }

  /** Putting a character in front of the first piece puts it in front of the joined string. */
  lemma JoinConsFirst(c: char, parts: seq<string>, sep: string)
    requires |parts| >= 1
    ensures Join([[c] + parts[0]] + parts[1..], sep) == [c] + Join(parts, sep)
  {
    var ps := [[c] + parts[0]] + parts[1..];
    if |parts| > 1 {
      assert ps[1..] == parts[1..];
    }
  }

  /** Joining the pieces of a split with the separator gives back the string. */
  lemma {:induction false} JoinSplit(s: string, sep: char)
    ensures Join(Split(s, sep), [sep]) == s
    decreases |s|
  {
    if s != [] {
      var rest := Split(s[1..], sep);
      JoinSplit(s[1..], sep);
      if s[0] == sep {
        assert ([""] + rest)[1..] == rest;
      } else {
        JoinConsFirst(s[0], rest, [sep]);
      }
    }
  }

  /** Splitting a separator-free prefix followed by `y`. */
  lemma {:induction false} SplitPrefix(x: string, y: string, sep: char)
    requires sep !in x
    ensures Split(x + y, sep) == [x + Split(y, sep)[0]] + Split(y, sep)[1..]
    decreases |x|
  {
    if x != [] {
      assert (x + y)[1..] == x[1..] + y;
      assert (x + y)[0] == x[0];
      SplitPrefix(x[1..], y, sep);
      assert [x[0]] + (x[1..] + Split(y, sep)[0]) == x + Split(y, sep)[0];
    } else {
      var r := Split(y, sep);
      assert x + y == y && x + r[0] == r[0];
      assert r == [r[0]] + r[1..];
    }
  }

  /** Splitting a join of separator-free pieces gives back the pieces. */
  lemma {:induction false} SplitJoin(parts: seq<string>, sep: char)
    requires |parts| >= 1
    requires forall p :: p in parts ==> sep !in p
    ensures Split(Join(parts, [sep]), sep) == parts
    decreases |parts|
  {
    if |parts| == 1 {
      SplitPrefix(parts[0], "", sep);
      assert parts[0] + "" == parts[0];
    } else {
      var j := Join(parts[1..], [sep]);
      SplitJoin(parts[1..], sep);
      assert ([sep] + j)[1..] == j;
      SplitPrefix(parts[0], [sep] + j, sep);
      assert parts[0] + [sep] + j == parts[0] + ([sep] + j);
      assert parts[0] + "" == parts[0];
    }
  }

  /** `s.startswith(k)`. */
  predicate IsPrefix(k: string, s: string) {
    |k| <= |s| && s[..|k|] == k
  }

  /** Python's substring test `k in s`. */
  predicate Contains(s: string, k: string)
    decreases |s|
  {
    IsPrefix(k, s) || (|s| > 0 && Contains(s[1..], k))
  }

  /** A string shorter than `k` does not contain it. */
  lemma {:induction false} ContainsTooShort(s: string, k: string)
    requires |s| < |k|
    ensures !Contains(s, k)
    decreases |s|
  {
    if |s| > 0 {
      ContainsTooShort(s[1..], k);
    }
  }

  /** `k` occurs in `s` starting at index `i`. */
  ghost predicate OccursAt(s: string, k: string, i: int) {
    0 <= i && i + |k| <= |s| && s[i..i + |k|] == k
  }

  /** Reference definition of "`k` is a substring of `s`", by position. */
  ghost predicate Occurs(s: string, k: string) {
    exists i :: OccursAt(s, k, i)
  }

  /** The scanning substring test agrees with the positional definition. */
  lemma {:induction false} ContainsIff(s: string, k: string)
    ensures Contains(s, k) <==> Occurs(s, k)
    decreases |s|
  {
    if |s| > 0 {
      ContainsIff(s[1..], k);
      if Occurs(s[1..], k) {
        var i :| OccursAt(s[1..], k, i);
        assert OccursAt(s, k, i + 1);
      }
      if Occurs(s, k) && !IsPrefix(k, s) {
        var i :| OccursAt(s, k, i);
        assert i != 0;
        assert OccursAt(s[1..], k, i - 1);
      }
    }
    if IsPrefix(k, s) {
      assert OccursAt(s, k, 0);
    }
    if Occurs(s, k) && |s| == 0 {
      var i :| OccursAt(s, k, i);
      assert OccursAt(s, k, 0);
    }
  }

  /** A substring of `s` is a substring of any string that has `s` inside it. */
  lemma ContainsInfix(p: string, s: string, q: string, k: string)
    requires Contains(s, k)
    ensures Contains(p + s + q, k)
  {
    ContainsIff(s, k);
    var i :| OccursAt(s, k, i);
    var w := p + s + q;
    assert w[|p| + i..|p| + i + |k|] == s[i..i + |k|];
    assert OccursAt(w, k, |p| + i);
    ContainsIff(w, k);
  }

  /** ASCII `lower()` for one character. */
  function LowerChar(c: char): char {
    if 'A' <= c <= 'Z' then (c as int + 32) as char else c
  }

  /** ASCII `upper()` for one character. */
  function UpperChar(c: char): char {
    if 'a' <= c <= 'z' then (c as int - 32) as char else c
  }

  /** `s.lower()`, on ASCII letters. */
  function LowerAscii(s: string): (r: string)
    ensures |r| == |s|
    ensures forall i :: 0 <= i < |r| ==> !('A' <= r[i] <= 'Z')
    ensures forall i :: 0 <= i < |s| && !('A' <= s[i] <= 'Z') ==> r[i] == s[i]
    ensures forall i :: 0 <= i < |s| && 'A' <= s[i] <= 'Z' ==> r[i] as int == s[i] as int + 32
  {
    seq(|s|, i requires 0 <= i < |s| => LowerChar(s[i]))
  }

  /** `s.upper()`, on ASCII letters. */
  function UpperAscii(s: string): (r: string)
    ensures |r| == |s|
  {
    seq(|s|, i requires 0 <= i < |s| => UpperChar(s[i]))
  }

  /** Lowering distributes over concatenation. */
  lemma LowerAsciiAppend(a: string, b: string)
    ensures LowerAscii(a + b) == LowerAscii(a) + LowerAscii(b)
  {
    assert forall i :: 0 <= i < |a + b| ==> LowerAscii(a + b)[i] == (LowerAscii(a) + LowerAscii(b))[i];
  }

  /** Upper-casing first does not change the lowered string. */
  lemma LowerUpper(s: string)
    ensures LowerAscii(UpperAscii(s)) == LowerAscii(s)
  {
    assert forall i :: 0 <= i < |s| ==> LowerAscii(UpperAscii(s))[i] == LowerAscii(s)[i];
  }

  /** `[p for p in parts if p.strip()]`: the non-blank entries, untrimmed, in order. */
  function KeepNonBlank(parts: seq<string>): (r: seq<string>)
    ensures |r| <= |parts|
    decreases |parts|
  {
    if parts == [] then []
    else (if !IsBlank(parts[0]) then [parts[0]] else []) + KeepNonBlank(parts[1..])
  }

  /** An entry is kept exactly when it is in the list and not blank. */
  lemma {:induction false} KeepNonBlankMembers(parts: seq<string>, x: string)
    ensures x in KeepNonBlank(parts) <==> x in parts && !IsBlank(x)
    decreases |parts|
  {
    if parts != [] {
      KeepNonBlankMembers(parts[1..], x);
      assert parts == [parts[0]] + parts[1..];
    }
  }

  /** The filter works entry by entry, so the kept entries stay in their order. */
  lemma {:induction false} KeepNonBlankAppend(a: seq<string>, b: seq<string>)
    ensures KeepNonBlank(a + b) == KeepNonBlank(a) + KeepNonBlank(b)
    decreases |a|
  {
    if a == [] {
      assert a + b == b;
    } else {
      assert (a + b)[0] == a[0];
      assert (a + b)[1..] == a[1..] + b;
      KeepNonBlankAppend(a[1..], b);
    }
  }

  /** Filtering a filtered list changes nothing. */
  lemma {:induction false} KeepNonBlankIdempotent(parts: seq<string>)
    ensures KeepNonBlank(KeepNonBlank(parts)) == KeepNonBlank(parts)
    decreases |parts|
  {
    if parts != [] {
      var head := if !IsBlank(parts[0]) then [parts[0]] else [];
      KeepNonBlankAppend(head, KeepNonBlank(parts[1..]));
      KeepNonBlankIdempotent(parts[1..]);
      if head != [] {
        assert head[1..] == [];
      }
    }
  }

  /** Every entry the filter keeps is in the list and not blank. */
  lemma KeepNonBlankKeepsNoBlank(parts: seq<string>)
    ensures forall x :: x in KeepNonBlank(parts) ==> x in parts && !IsBlank(x)
  {
    forall x | x in KeepNonBlank(parts) ensures x in parts && !IsBlank(x) {
      KeepNonBlankMembers(parts, x);
    }
  }

  /** A list without blank entries passes the filter unchanged. */
  lemma {:induction false} KeepNonBlankAllKept(parts: seq<string>)
    requires forall i :: 0 <= i < |parts| ==> !IsBlank(parts[i])
    ensures KeepNonBlank(parts) == parts
    decreases |parts|
  {
    if parts != [] {
      KeepNonBlankAllKept(parts[1..]);
    }
  }
}
