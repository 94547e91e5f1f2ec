/** Character classes and string operations with the meaning of the Java
    library calls that the type resolver relies on: `toLowerCase`, the
    regular-expression class `\s`, `String.trim`, and `String.split` with a
    one-character separator. */
module Text {

  datatype Option<T> = None | Some(value: T)

  // ---------------------------------------------------------------------
  // Character classes

  /** An ASCII upper-case letter. */
  predicate IsUpper(c: char) { 'A' <= c <= 'Z' }

  /** A character of the Java regular-expression class `\w`. */
  predicate IsWordChar(c: char) {
    ('a' <= c <= 'z') || ('A' <= c <= 'Z') || ('0' <= c <= '9') || c == '_'
  }

  /** A character of the Java regular-expression class `\s`: space, tab,
      line feed, vertical tab, form feed and carriage return. */
  predicate IsRegexSpace(c: char) {
    c == ' ' || c == '\t' || c == '\n' || c == 11 as char || c == 12 as char || c == '\r'
  }

  /** A character that `String.trim` removes: every code point up to U+0020. */
  predicate IsTrimChar(c: char) { c <= ' ' }

  /** A character the regular-expression `.` does not match (a line terminator). */
  predicate IsLineTerminator(c: char) {
    c == '\n' || c == '\r' || c == 0x85 as char || c == 0x2028 as char || c == 0x2029 as char
  }

  predicate IsLowerCase(s: string) {
    forall i :: 0 <= i < |s| ==> !IsUpper(s[i])
  }

  // ---------------------------------------------------------------------
  // Lower-casing

  function LowerChar(c: char): char {
    if IsUpper(c) then (c as int + 32) as char else c
  }

  /** `String.toLowerCase`, on ASCII letters. */
  function Lower(s: string): (r: string)
    ensures |r| == |s| && IsLowerCase(r)
    ensures forall i :: 0 <= i < |s| ==> r[i] == LowerChar(s[i])
    ensures IsLowerCase(s) ==> r == s
  {
    if s == [] then [] else [LowerChar(s[0])] + Lower(s[1..])
  }

  // ---------------------------------------------------------------------
  // Counting runs of characters

  /** The length of the longest prefix of `s` whose characters satisfy `p`. */
  function LeadingCount(s: string, p: char -> bool): (n: nat)
    ensures n <= |s|
    ensures forall i :: 0 <= i < n ==> p(s[i])
    ensures n < |s| ==> !p(s[n])
  {
    if s == [] || !p(s[0]) then 0 else 1 + LeadingCount(s[1..], p)
  }

  /** The length of the longest suffix of `s` whose characters satisfy `p`. */
  function TrailingCount(s: string, p: char -> bool): (n: nat)
    ensures n <= |s|
    ensures forall i :: |s| - n <= i < |s| ==> p(s[i])
    ensures n < |s| ==> !p(s[|s| - n - 1])
  {
    if s == [] || !p(s[|s| - 1]) then 0 else 1 + TrailingCount(s[..|s| - 1], p)
  }

  /** The contract of LeadingCount determines it. */
  lemma LeadingCountIs(s: string, p: char -> bool, n: nat)
    requires n <= |s|
    requires forall i :: 0 <= i < n ==> p(s[i])
    requires n < |s| ==> !p(s[n])
    ensures LeadingCount(s, p) == n
  {
  }

  /** The contract of TrailingCount determines it. */
  lemma TrailingCountIs(s: string, p: char -> bool, n: nat)
    requires n <= |s|
    requires forall i :: |s| - n <= i < |s| ==> p(s[i])
    requires n < |s| ==> !p(s[|s| - n - 1])
    ensures TrailingCount(s, p) == n
  {
  }

  /** The index of the first character of `s` in `cs`, or `|s|` if there is none. */
  function IndexOfAny(s: string, cs: set<char>): (i: nat)
    ensures i <= |s|
    ensures i < |s| ==> s[i] in cs
    ensures forall j :: 0 <= j < i ==> s[j] !in cs
  {
    if s == [] then 0
    else if s[0] in cs then 0
    else 1 + IndexOfAny(s[1..], cs)
  }

  function IndexOf(s: string, c: char): (i: nat)
    ensures i <= |s|
    ensures i < |s| <==> c in s
    ensures i < |s| ==> s[i] == c
    ensures forall j :: 0 <= j < i ==> s[j] != c
  {
    IndexOfAny(s, {c})
  }

  /** The contract of IndexOfAny determines it. */
  lemma IndexOfAnyIs(s: string, cs: set<char>, i: nat)
    requires i <= |s|
    requires i < |s| ==> s[i] in cs
    requires forall j :: 0 <= j < i ==> s[j] !in cs
    ensures IndexOfAny(s, cs) == i
  {
  }

  // ---------------------------------------------------------------------
  // Trimming

  /** `s` without the `\s` characters at its end (what `\s*` before a
      bracket removes). */
  function TrimEndSpaces(s: string): (r: string)
    ensures |r| <= |s| && r == s[..|r|]
    ensures forall i :: |r| <= i < |s| ==> IsRegexSpace(s[i])
    ensures r != [] ==> !IsRegexSpace(r[|r| - 1])
  {
    s[..|s| - TrailingCount(s, IsRegexSpace)]
  }

  /** All characters of `s` are ones `String.trim` removes. */
  predicate Blank(s: string) {
    forall i :: 0 <= i < |s| ==> IsTrimChar(s[i])
  }

  /** `String.trim`: `s` without the characters up to U+0020 at either end. */
  function Trim(s: string): (r: string)
    ensures |r| <= |s|
    ensures r == [] <==> Blank(s)
    ensures r != [] ==> !IsTrimChar(r[0]) && !IsTrimChar(r[|r| - 1])
    ensures forall i :: 0 <= i < |r| ==> r[i] in s
  {
    var a := LeadingCount(s, IsTrimChar);
    var rest := s[a..];
    var r := rest[..|rest| - TrailingCount(rest, IsTrimChar)];
    assert forall i :: 0 <= i < |r| ==> r[i] == s[a + i];
    r
  }

  /** The trimmed string is the part of `s` between a blank prefix and a
      blank suffix. */
  lemma TrimInfix(s: string)
    ensures exists a, b ::
      && 0 <= a <= b <= |s| && Trim(s) == s[a..b]
      && (forall i :: 0 <= i < a ==> IsTrimChar(s[i]))
      && (forall i :: b <= i < |s| ==> IsTrimChar(s[i]))
  {
    var a := LeadingCount(s, IsTrimChar);
    var rest := s[a..];
    var r := Trim(s);
    assert r == s[a..a + |r|];
    assert forall i :: a + |r| <= i < |s| ==> s[i] == rest[i - a];
  }

  /** The trimmed form of blanks, a clean piece and blanks is that piece. */
  lemma TrimAround(pre: string, x: string, post: string)
    requires Blank(pre) && Blank(post) && Clean(x)
    ensures Trim(pre + x + post) == x
  {
    var s := pre + x + post;
    assert forall i :: 0 <= i < |pre| ==> s[i] == pre[i];
    assert s[|pre|] == x[0];
    LeadingCountIs(s, IsTrimChar, |pre|);
    var rest := s[|pre|..];
    assert rest == x + post;
    assert forall i :: |x| <= i < |rest| ==> rest[i] == post[i - |x|];
    assert rest[|x| - 1] == x[|x| - 1];
    TrailingCountIs(rest, IsTrimChar, |post|);
    assert rest[..|x|] == x;
  }

  /** `trimToNull`: the trimmed string, or nothing when it is empty. */
  function TrimToNull(s: string): (r: Option<string>)
    ensures r.None? <==> Blank(s)
    ensures r.Some? ==> r.value == Trim(s)
    ensures r.Some? ==> r.value != [] && !IsTrimChar(r.value[0]) && !IsTrimChar(r.value[|r.value| - 1])
  {
    var t := Trim(s);
    if t == [] then None else Some(t)
  }

  // ---------------------------------------------------------------------
  // Splitting on one separator character

  /** Every piece of `s` between separators, empty pieces included. */
  function Split(s: string, sep: char): (parts: seq<string>)
    ensures |parts| >= 1
    ensures |parts| == 1 <==> sep !in s
    ensures forall i :: 0 <= i < |parts| ==> sep !in parts[i]
    decreases |s|
  {
    var i := IndexOf(s, sep);
    if i == |s| then [s] else [s[..i]] + Split(s[i + 1..], sep)
  }

  /** The pieces put back together, separated by `sep`. */
  function Join(parts: seq<string>, sep: char): string
    requires |parts| >= 1
  {
    if |parts| == 1 then parts[0] else parts[0] + [sep] + Join(parts[1..], sep)
  }

  lemma {:induction false} JoinSplit(s: string, sep: char)
    ensures Join(Split(s, sep), sep) == s
    decreases |s|
  {
    var i := IndexOf(s, sep);
    if i < |s| {
      var tail := Split(s[i + 1..], sep);
      assert Split(s, sep) == [s[..i]] + tail;
      JoinSplit(s[i + 1..], sep);
      JoinCons(s[..i], tail, sep);
      Around(s, i);
      assert Join(Split(s, sep), sep) == s[..i] + [sep] + Join(tail, sep);
    } else {
      assert Split(s, sep) == [s];
    }
  }

  /** A string is the part before position `i`, the character there and
      the part after. */
  lemma Around(s: string, i: nat)
    requires i < |s|
    ensures s == s[..i] + [s[i]] + s[i + 1..]
  {
  }

  lemma JoinCons(p: string, rest: seq<string>, sep: char)
    requires |rest| >= 1
    ensures Join([p] + rest, sep) == p + [sep] + Join(rest, sep)
  {
    assert ([p] + rest)[1..] == rest;
  }

  lemma {:induction false} SplitJoin(parts: seq<string>, sep: char)
    requires |parts| >= 1
    requires forall i :: 0 <= i < |parts| ==> sep !in parts[i]
    ensures Split(Join(parts, sep), sep) == parts
  {
    var s := Join(parts, sep);
    if |parts| == 1 {
      assert sep !in s;
    } else {
      var p := parts[0];
      var rest := Join(parts[1..], sep);
      assert s == p + [sep] + rest;
      assert s[|p|] == sep;
      IndexOfAnyIs(s, {sep}, |p|);
      assert s[..|p|] == p && s[|p| + 1..] == rest;
      SplitJoin(parts[1..], sep);
    }
  }

  /** `parts` without its trailing empty strings. */
  function DropTrailingEmpty(parts: seq<string>): (r: seq<string>)
    ensures |r| <= |parts| && r == parts[..|r|]
    ensures forall i :: |r| <= i < |parts| ==> parts[i] == []
    ensures r != [] ==> r[|r| - 1] != []
  {
    if parts == [] || parts[|parts| - 1] != [] then parts
    else DropTrailingEmpty(parts[..|parts| - 1])
  }

  /** `s.split(String.valueOf(sep))`: when the separator does not occur the
      result is `[s]`; otherwise the pieces, with the trailing empty ones
      removed. */
  function JavaSplit(s: string, sep: char): (parts: seq<string>)
    ensures sep !in s ==> parts == [s]
    ensures |parts| <= |Split(s, sep)| && parts == Split(s, sep)[..|parts|]
    ensures forall i :: |parts| <= i < |Split(s, sep)| ==> Split(s, sep)[i] == []
    ensures sep in s && parts != [] ==> parts[|parts| - 1] != []
  {
    var all := Split(s, sep);
    if |all| == 1 then all else DropTrailingEmpty(all)
  }

  /** The pieces that are not blank, each trimmed, in order: what a loop
      `for (p : parts) { p = trimToNull(p); if (p != null) use(p); }` uses. */
  function NonBlank(parts: seq<string>): (r: seq<string>)
    ensures |r| <= |parts|
    ensures forall i :: 0 <= i < |r| ==> r[i] != [] && !IsTrimChar(r[i][0]) && !IsTrimChar(r[i][|r[i]| - 1])
  {
    if parts == [] then []
    else
      var init := NonBlank(parts[..|parts| - 1]);
      match TrimToNull(parts[|parts| - 1])
      case None => init
      case Some(v) => init + [v]
  }

  /** One more piece extends the non-blank pieces by its trimmed form, if
      it is not blank. */
  lemma NonBlankPrefix(parts: seq<string>, i: nat)
    requires i < |parts|
    ensures NonBlank(parts[..i + 1]) ==
      match TrimToNull(parts[i])
      case None => NonBlank(parts[..i])
      case Some(v) => NonBlank(parts[..i]) + [v]
  {
    assert parts[..i + 1][..i] == parts[..i];
  }

  /** A single piece gives its trimmed form, or nothing when it is blank. */
  lemma NonBlankOne(p: string)
    ensures NonBlank([p]) == if Blank(p) then [] else [Trim(p)]
  {
    assert [p][..0] == [];
  }

  /** Filtering distributes over concatenation: the pieces of `a` are
      handled before those of `b`, and independently of them. */
  lemma {:induction false} NonBlankAppend(a: seq<string>, b: seq<string>)
    ensures NonBlank(a + b) == NonBlank(a) + NonBlank(b)
    decreases |b|
  {
    if b == [] {
      assert a + b == a;
    } else {
      var c, x := b[..|b| - 1], b[|b| - 1];
      assert a + b == (a + c) + [x];
      assert b == c + [x];
      NonBlankSnoc(a + c, x);
      NonBlankSnoc(c, x);
      NonBlankAppend(a, c);
    }
  }

  lemma NonBlankSnoc(p: seq<string>, x: string)
    ensures NonBlank(p + [x]) == NonBlank(p) + NonBlank([x])
  {
    var q := p + [x];
    assert q[..|q| - 1] == p;
    NonBlankOne(x);
  }

  /** A piece that is not blank and has no blank character at either end. */
  predicate Clean(p: string) {
    p != [] && !IsTrimChar(p[0]) && !IsTrimChar(p[|p| - 1])
  }

  /** A clean piece is its own trimmed form. */
  lemma TrimToNullClean(p: string)
    requires Clean(p)
    ensures TrimToNull(p) == Some(p)
  {
    assert LeadingCount(p, IsTrimChar) == 0;
    assert p[0..] == p;
    assert TrailingCount(p, IsTrimChar) == 0;
    assert p[..|p|] == p;
  }

  /** Clean pieces pass the filter unchanged and in order. */
  lemma {:induction false} NonBlankClean(parts: seq<string>)
    requires forall i :: 0 <= i < |parts| ==> Clean(parts[i])
    ensures NonBlank(parts) == parts
  {
    if parts != [] {
      var n := |parts| - 1;
      NonBlankClean(parts[..n]);
      TrimToNullClean(parts[n]);
      assert parts[..n] + [parts[n]] == parts;
    }
  }

  /** Blank pieces are all dropped. */
  lemma {:induction false} NonBlankBlank(parts: seq<string>)
    requires forall i, j :: 0 <= i < |parts| && 0 <= j < |parts[i]| ==> IsTrimChar(parts[i][j])
    ensures NonBlank(parts) == []
  {
    if parts != [] {
      NonBlankBlank(parts[..|parts| - 1]);
    }
  }

  /** Dropping empty pieces before filtering blank ones changes nothing, so
      Java's removal of trailing empty pieces is invisible after NonBlank. */
  lemma {:induction false} NonBlankDropTrailing(parts: seq<string>)
    ensures NonBlank(DropTrailingEmpty(parts)) == NonBlank(parts)
  {
    if parts != [] && parts[|parts| - 1] == [] {
      NonBlankDropTrailing(parts[..|parts| - 1]);
    }
  }

  lemma NonBlankJavaSplit(s: string, sep: char)
    ensures NonBlank(JavaSplit(s, sep)) == NonBlank(Split(s, sep))
  {
    NonBlankDropTrailing(Split(s, sep));
  }
}
