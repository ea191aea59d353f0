/** The few Python `str` operations the agent's helpers rely on, over `seq<char>`:
    `sep.join(parts)`, `s.capitalize()` and `s.strip()`; and `s.split(c)`, used
    only to read an export back line by line. */
module Strings {

  /** The combined length of the parts. */
  function TotalLength(parts: seq<string>): nat
  {
    if |parts| == 0 then 0 else |parts[0]| + TotalLength(parts[1..])
  }

  /** Python's `sep.join(parts)`: the parts with one `sep` between neighbours,
      so the result holds every part and one separator fewer than parts. */
  function Join(sep: string, parts: seq<string>): (r: string)
    ensures |parts| == 0 ==> r == ""
    ensures |parts| > 0 ==> |r| == TotalLength(parts) + (|parts| - 1) * |sep|
  {
    if |parts| == 0 then ""
    else if |parts| == 1 then parts[0]
    else parts[0] + sep + Join(sep, parts[1..])
  }

  /** Python's `s.split(c)` for a one-character separator: the maximal pieces
      between occurrences of `c`; there is always at least one piece. */
  function Split(c: char, s: string): (pieces: seq<string>)
    ensures |pieces| >= 1
  {
    if |s| == 0 then [""]
    else if s[0] == c then [""] + Split(c, s[1..])
    else
      var rest := Split(c, s[1..]);
      [[s[0]] + rest[0]] + rest[1..]
  }

  lemma {:induction false} SplitWithoutSeparator(c: char, s: string)
    requires c !in s
    ensures Split(c, s) == [s]
  {
    if |s| > 0 {
      assert c !in s[1..] by {
        forall k | 0 <= k < |s[1..]| ensures s[1..][k] != c { assert s[1..][k] == s[k + 1]; }
      }
      SplitWithoutSeparator(c, s[1..]);
      assert [s[0]] + s[1..] == s;
    }
  }

  lemma {:induction false} SplitAfterPiece(c: char, p: string, t: string)
    requires c !in p
    ensures Split(c, p + [c] + t) == [p] + Split(c, t)
  {
    var s := p + [c] + t;
    if |p| == 0 {
      assert s[0] == c && s[1..] == t;
    } else {
      assert s[0] == p[0] != c;
      assert s[1..] == p[1..] + [c] + t;
      assert c !in p[1..] by {
        forall k | 0 <= k < |p[1..]| ensures p[1..][k] != c { assert p[1..][k] == p[k + 1]; }
      }
      SplitAfterPiece(c, p[1..], t);
      assert [p[0]] + p[1..] == p;
    }
  }

  /** Splitting on the separator undoes a join on it, as long as no part
      contains the separator: the pieces are exactly the parts, in order. */
  lemma {:induction false} SplitJoin(c: char, parts: seq<string>)
    requires |parts| >= 1
    requires forall i :: 0 <= i < |parts| ==> c !in parts[i]
    ensures Split(c, Join([c], parts)) == parts
  {
    if |parts| == 1 {
      SplitWithoutSeparator(c, parts[0]);
    } else {
      SplitJoin(c, parts[1..]);
      SplitAfterPiece(c, parts[0], Join([c], parts[1..]));
      assert [parts[0]] + parts[1..] == parts;
    }
  }

  /** A join of at least one part starts with the first part and ends with the
      last one: nothing is put before the first part or after the last. */
  lemma {:induction false} JoinEnds(sep: string, parts: seq<string>)
    requires |parts| >= 1
    ensures |Join(sep, parts)| >= |parts[0]| && Join(sep, parts)[..|parts[0]|] == parts[0]
    ensures var last := parts[|parts| - 1];
      |Join(sep, parts)| >= |last| && Join(sep, parts)[|Join(sep, parts)| - |last|..] == last
  {
    if |parts| > 1 {
      JoinEnds(sep, parts[1..]);
      var j := Join(sep, parts);
      var rest := Join(sep, parts[1..]);
      assert j == parts[0] + sep + rest;
      assert j[|j| - |rest|..] == rest;
      var last := parts[|parts| - 1];
      assert j[|j| - |last|..] == rest[|rest| - |last|..];
    }
  }

  // ASCII case mapping, as Python applies it to ASCII letters.

  predicate IsAsciiLower(c: char) { 'a' <= c <= 'z' }

  predicate IsAsciiUpper(c: char) { 'A' <= c <= 'Z' }

  function Upper(c: char): char
  {
    if IsAsciiLower(c) then (c as int - 'a' as int + 'A' as int) as char else c
  }

  function Lower(c: char): char
  {
    if IsAsciiUpper(c) then (c as int - 'A' as int + 'a' as int) as char else c
  }

  function LowerAll(s: string): string
  {
    seq(|s|, i requires 0 <= i < |s| => Lower(s[i]))
  }

  /** Python's `s.capitalize()` on ASCII text: the same letters, ignoring case,
      the first character not lower-case and every later one not upper-case. */
  function Capitalize(s: string): (r: string)
    ensures |r| == |s|
    ensures forall i :: 0 <= i < |s| ==> Lower(r[i]) == Lower(s[i])
    ensures |s| > 0 ==> !IsAsciiLower(r[0])
    ensures forall i :: 1 <= i < |s| ==> !IsAsciiUpper(r[i])
  {
    if |s| == 0 then "" else [Upper(s[0])] + LowerAll(s[1..])
  }

  /** The four properties in Capitalize's contract pin the result down: any
      string that has them is the capitalised string. */
  lemma CapitalizeUnique(s: string, r: string)
    requires |r| == |s|
    requires forall i :: 0 <= i < |s| ==> Lower(r[i]) == Lower(s[i])
    requires |s| > 0 ==> !IsAsciiLower(r[0])
    requires forall i :: 1 <= i < |s| ==> !IsAsciiUpper(r[i])
    ensures r == Capitalize(s)
  {
    var cap := Capitalize(s);
    forall i | 0 <= i < |s| ensures r[i] == cap[i] {
      assert Lower(r[i]) == Lower(cap[i]);
    }
  }

  /** Capitalising neither introduces nor removes a line break. */
  lemma CapitalizeKeepsNewlines(s: string)
    ensures '\n' in Capitalize(s) <==> '\n' in s
  {
    var cap := Capitalize(s);
    forall i | 0 <= i < |s| ensures cap[i] == '\n' <==> s[i] == '\n' {
      assert Lower(cap[i]) == Lower(s[i]);
    }
  }

  // Python's `str.strip()` with no argument.

  /** The characters Python's `str.isspace()` accepts. */
  predicate IsSpace(c: char)
  {
    c == ' ' || '\t' <= c <= '\r' || '\U{1C}' <= c <= '\U{1F}' || c == '\U{85}' || c == '\U{A0}'
    || c == '\U{1680}' || '\U{2000}' <= c <= '\U{200A}' || c == '\U{2028}' || c == '\U{2029}'
    || c == '\U{202F}' || c == '\U{205F}' || c == '\U{3000}'
  }

  /** `s.lstrip()`: no longer than `s`, and not starting with whitespace
      (TrimStartSpec says which suffix it is). */
  function TrimStart(s: string): (t: string)
    ensures |t| <= |s|
    ensures |t| > 0 ==> !IsSpace(t[0])
  {
    if |s| > 0 && IsSpace(s[0]) then TrimStart(s[1..]) else s
  }

  /** `s.rstrip()`: no longer than `s`, and not ending with whitespace
      (TrimEndSpec says which prefix it is). */
  function TrimEnd(s: string): (t: string)
    ensures |t| <= |s|
    ensures |t| > 0 ==> !IsSpace(t[|t| - 1])
  {
    if |s| > 0 && IsSpace(s[|s| - 1]) then TrimEnd(s[..|s| - 1]) else s
  }

  /** `s.lstrip()` is the suffix of `s` that starts at its first character
      other than whitespace; everything before it is whitespace. */
  lemma {:induction false} TrimStartSpec(s: string)
    ensures var t := TrimStart(s);
      |t| <= |s| && t == s[|s| - |t|..] &&
      (forall i :: 0 <= i < |s| - |t| ==> IsSpace(s[i])) &&
      (|t| > 0 ==> !IsSpace(t[0]))
  {
    if |s| > 0 && IsSpace(s[0]) {
      TrimStartSpec(s[1..]);
    }
  }

  /** `s.rstrip()` is the prefix of `s` that ends at its last character other
      than whitespace; everything after it is whitespace. */
  lemma {:induction false} TrimEndSpec(s: string)
    ensures var t := TrimEnd(s);
      |t| <= |s| && t == s[..|t|] &&
      (forall i :: |t| <= i < |s| ==> IsSpace(s[i])) &&
      (|t| > 0 ==> !IsSpace(t[|t| - 1]))
  {
    if |s| > 0 && IsSpace(s[|s| - 1]) {
      TrimEndSpec(s[..|s| - 1]);
    }
  }

  /** `s.strip()`: it neither starts nor ends with whitespace, and it is
      empty exactly when every character of `s` is whitespace. */
  function Strip(s: string): (t: string)
    ensures |t| <= |s|
    ensures |t| > 0 ==> !IsSpace(t[0]) && !IsSpace(t[|t| - 1])
    ensures t == "" <==> forall i :: 0 <= i < |s| ==> IsSpace(s[i])
  {
    TrimStartSpec(s);
    TrimEndSpec(TrimStart(s));
    TrimEnd(TrimStart(s))
  }
}
