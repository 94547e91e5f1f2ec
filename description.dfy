/** The text computations of `DataTypeFactory.fromDescription`: the type
    name, the positional parameters and the property tokens of a description
    `name(params){key:value,...}`. Each regular-expression call is written out
    as the string function it computes on a description without line
    terminators. */
module Description {
  import opened Text

  /** The regular expressions use `.`, which does not match a line
      terminator; the model is stated for descriptions without them. */
  predicate NoLineTerminators(s: string) {
    forall i :: 0 <= i < |s| ==> !IsLineTerminator(s[i])
  }

  // ---------------------------------------------------------------------
  // The type name

  /** Whether `\s*` followed by `c` matches at the start of `t`. */
  predicate SpacesThen(t: string, c: char) {
    var n := LeadingCount(t, IsRegexSpace);
    n < |t| && t[n] == c
  }

  /** `s.replaceFirst("\\s*" + c + ".*", "")` searching from position `i`:
      the first start position where `\s*c` matches is where the match
      begins, and `.*` then runs to the end of `s`, so `s` is cut there; with
      no match, `s` is returned unchanged. */
  function CutFrom(s: string, c: char, i: nat): string
    requires i <= |s|
    decreases |s| - i
  {
    if i == |s| then s
    else if SpacesThen(s[i..], c) then s[..i]
    else CutFrom(s, c, i + 1)
  }

  /** The name as the source computes it: first `s` is cut at `\s*\(` if it
      contains `(`; then, if that name still contains `{`, the cut at `\s*\{`
      is taken of the whole description again. This and the lemmas about it
      describe the model; on a description with a line terminator the Java
      expressions behave differently (see NoLineTerminators). */
  function TypeName(s: string): string {
    var afterParen := if '(' in s then CutFrom(s, '(', 0) else s;
    if '{' in afterParen then CutFrom(s, '{', 0) else afterParen
  }

  lemma TrimEndSpacesIs(s: string, k: nat)
    requires k <= |s|
    requires k > 0 ==> !IsRegexSpace(s[k - 1])
    requires forall i :: k <= i < |s| ==> IsRegexSpace(s[i])
    ensures TrimEndSpaces(s) == s[..k]
  {
  }

  lemma {:induction false} CutFromNoMatch(s: string, c: char, i: nat)
    requires i <= |s| && c !in s
    ensures CutFrom(s, c, i) == s
    decreases |s| - i
  {
    if i < |s| {
      var t := s[i..];
      assert forall j :: 0 <= j < |t| ==> t[j] == s[i + j];
      CutFromNoMatch(s, c, i + 1);
    }
  }

  lemma {:induction false} CutFromBefore(s: string, c: char, i: nat)
    requires !IsRegexSpace(c) && c in s
    requires i <= |TrimEndSpaces(s[..IndexOf(s, c)])|
    ensures CutFrom(s, c, i) == TrimEndSpaces(s[..IndexOf(s, c)])
    decreases |s| - i
  {
    var p := IndexOf(s, c);
    var q := |TrimEndSpaces(s[..p])|;
    var t := s[i..];
    var n := LeadingCount(t, IsRegexSpace);
    if i < q {
      assert forall j :: 0 <= j < |t| ==> t[j] == s[i + j];
      assert t[p - i] == s[p];
      assert t[q - 1 - i] == s[..p][q - 1];
      assert !SpacesThen(t, c);
      CutFromBefore(s, c, i + 1);
    } else {
      assert i == q;
      forall j | 0 <= j < p - q ensures IsRegexSpace(t[j]) {
        assert t[j] == s[..p][q + j];
      }
      LeadingCountIs(t, IsRegexSpace, p - q);
      assert t[p - q] == s[p];
    }
  }

  /** `replaceFirst("\\s*" + c + ".*", "")` keeps what comes before the first
      `c`, less the `\s` characters right before it; without `c` it keeps
      everything. */
  lemma CutAtFirst(s: string, c: char)
    requires !IsRegexSpace(c)
    ensures CutFrom(s, c, 0) == if c in s then TrimEndSpaces(s[..IndexOf(s, c)]) else s
  {
    if c in s { CutFromBefore(s, c, 0); } else { CutFromNoMatch(s, c, 0); }
  }

  /** The index of the first bracket, `(` or `{`, or `|s|` if there is none. */
  function FirstBracket(s: string): nat {
    IndexOfAny(s, {'(', '{'})
  }

  /** The name is the text before the first `(` or `{`, whichever comes
      first, without the `\s` characters right before that bracket; without a
      bracket it is the whole description, untrimmed. */
  lemma TypeNameBeforeBracket(s: string)
    ensures var b := FirstBracket(s);
      TypeName(s) == if b < |s| then TrimEndSpaces(s[..b]) else s
  {
    var b := FirstBracket(s);
    CutAtFirst(s, '(');
    CutAtFirst(s, '{');
    var p := IndexOf(s, '(');
    var f := IndexOf(s, '{');
    if p < |s| && p <= f {
      IndexOfAnyIs(s, {'(', '{'}, p);
      var n1 := TrimEndSpaces(s[..p]);
      assert '{' !in n1 by {
        forall j | 0 <= j < |n1| ensures n1[j] != '{' { assert n1[j] == s[j]; }
      }
    } else if f < |s| {
      IndexOfAnyIs(s, {'(', '{'}, f);
      if p < |s| {
        var n1 := TrimEndSpaces(s[..p]);
        assert s[..p][f] == '{';
        assert n1[f] == '{';
      }
    } else {
      IndexOfAnyIs(s, {'(', '{'}, |s|);
    }
  }

  // ---------------------------------------------------------------------
  // Positional parameters

  /** `s.matches("\\w+\\s*\\(.*")` on a description without line terminators:
      one or more word characters, then `\s` characters, then `(`. */
  predicate ParamsGuard(s: string) {
    var w := LeadingCount(s, IsWordChar);
    var n := LeadingCount(s[w..], IsRegexSpace);
    0 < w && w + n < |s| && s[w + n] == '('
  }

  predicate AllWordChars(t: string) {
    forall i :: 0 <= i < |t| ==> IsWordChar(t[i])
  }

  /** With parameters, the first bracket is the `(` after the word and the
      `\s` run, and the name is that word. */
  lemma ParamsGuardName(s: string)
    requires ParamsGuard(s)
    ensures var w := LeadingCount(s, IsWordChar);
      && FirstBracket(s) == w + LeadingCount(s[w..], IsRegexSpace)
      && TypeName(s) == s[..w]
  {
    var w := LeadingCount(s, IsWordChar);
    var rest := s[w..];
    var n := LeadingCount(rest, IsRegexSpace);
    forall j | 0 <= j < w + n ensures s[j] !in {'(', '{'} {
      if j < w {
        assert IsWordChar(s[j]);
      } else {
        assert s[j] == rest[j - w];
        assert IsRegexSpace(rest[j - w]);
      }
    }
    assert s[w + n] == rest[n];
    IndexOfAnyIs(s, {'(', '{'}, w + n);
    forall j | w <= j < w + n ensures IsRegexSpace(s[j]) {
      assert s[j] == rest[j - w];
    }
    NameBeforeSpaces(s, w);
  }

  /** When the first bracket is preceded by a `\s` run that starts at `k`,
      the name is the text before `k`. */
  lemma NameBeforeSpaces(s: string, k: nat)
    requires k <= FirstBracket(s) < |s|
    requires k > 0 ==> !IsRegexSpace(s[k - 1])
    requires forall i :: k <= i < FirstBracket(s) ==> IsRegexSpace(s[i])
    ensures TypeName(s) == s[..k]
  {
    var b := FirstBracket(s);
    var pre := s[..b];
    TypeNameBeforeBracket(s);
    assert forall i :: k <= i < b ==> IsRegexSpace(pre[i]);
    TrimEndSpacesIs(pre, k);
  }

  /** A one-word name before a first bracket `(` gives parameters. */
  lemma WordNameGivesParams(s: string)
    requires FirstBracket(s) < |s| && s[FirstBracket(s)] == '('
    requires TypeName(s) != [] && AllWordChars(TypeName(s))
    ensures ParamsGuard(s)
  {
    TypeNameBeforeBracket(s);
    var b := FirstBracket(s);
    var name := TypeName(s);
    var q := |name|;
    var pre := s[..b];
    assert name == s[..q];
    assert q < b ==> IsRegexSpace(pre[q]);
    LeadingCountIs(s, IsWordChar, q);
    var rest := s[q..];
    forall j | 0 <= j < b - q ensures IsRegexSpace(rest[j]) {
      assert rest[j] == pre[q + j];
    }
    LeadingCountIs(rest, IsRegexSpace, b - q);
    assert rest[b - q] == s[b];
  }

  /** Parameters are read exactly when the first bracket is `(` and the name
      before it is a single non-empty run of word characters; so
      `double precision(10)` and `name{...}(...)` get none. */
  lemma ParamsGuardIff(s: string)
    ensures ParamsGuard(s) <==>
      var b := FirstBracket(s);
      b < |s| && s[b] == '(' && TypeName(s) != [] && AllWordChars(TypeName(s))
  {
    if ParamsGuard(s) {
      ParamsGuardName(s);
    }
    var b := FirstBracket(s);
    if b < |s| && s[b] == '(' && TypeName(s) != [] && AllWordChars(TypeName(s)) {
      WordNameGivesParams(s);
    }
  }

  /** The text after the first `open` up to the next `close`, or to the
      end: what removing the shortest prefix through `open` and then
      everything from the first `close` on leaves. */
  function Enclosed(s: string, open: char, close: char): (r: string)
    requires open in s
    ensures var i := IndexOf(s, open);
      && i + 1 + |r| <= |s| && r == s[i + 1..i + 1 + |r|]
      && (i + 1 + |r| < |s| ==> s[i + 1 + |r|] == close)
    ensures close !in r
  {
    var rest := s[IndexOf(s, open) + 1..];
    rest[..IndexOf(rest, close)]
  }

  /** The parameter text: `replaceFirst(".*?\\(", "")` followed by
      `replaceFirst("\\).*", "")`. */
  function ParamText(s: string): string
    requires '(' in s
  {
    Enclosed(s, '(', ')')
  }

  /** For `word(body)` with a one-word name and no `)` in `body`, the name
      is the word, parameters are read, and their text is `body`. */
  lemma WordThenParams(w: string, body: string)
    requires w != [] && AllWordChars(w) && ')' !in body
    ensures var s := w + ['('] + body + [')'];
      && TypeName(s) == w && ParamsGuard(s) && ParamText(s) == body
      && ('{' !in body ==> '{' !in s)
  {
    var s := w + ['('] + body + [')'];
    assert forall j :: 0 <= j < |w| ==> s[j] == w[j] && s[j] !in {'(', '{'};
    assert s[|w|] == '(';
    IndexOfAnyIs(s, {'(', '{'}, |w|);
    IndexOfAnyIs(s, {'('}, |w|);
    NameBeforeSpaces(s, |w|);
    WordNameGivesParams(s);
    var rest := s[|w| + 1..];
    assert rest == body + [')'];
    IndexOfAnyIs(rest, {')'}, |body|);
    if '{' !in body {
      forall j | 0 <= j < |s| ensures s[j] != '{' {
        if |w| < j < |s| - 1 { assert s[j] == body[j - |w| - 1]; }
      }
    }
  }

  /** The positional parameters: the parameter text split on `,`, each piece
      trimmed, blank pieces dropped, order kept. */
  function Params(s: string): seq<string>
    requires '(' in s
  {
    NonBlank(JavaSplit(ParamText(s), ','))
  }

  // ---------------------------------------------------------------------
  // Properties

  /** The property text: the same two replacements with `{` and `}`. */
  function PropText(s: string): string
    requires '{' in s
  {
    Enclosed(s, '{', '}')
  }

  /** For `word{body}` with no `}` in `body`, the name is the word, no
      parameters are read, and the property text is `body`. */
  lemma WordThenProps(w: string, body: string)
    requires AllWordChars(w) && '}' !in body
    ensures var s := w + ['{'] + body + ['}'];
      && TypeName(s) == w && !ParamsGuard(s) && '{' in s && PropText(s) == body
  {
    var s := w + ['{'] + body + ['}'];
    assert s == w + ['{'] + (body + ['}']);
    WordThenBraceName(w, body + ['}']);
    WordThenBrace(w, body + ['}']);
    assert s[|w|] == '{';
    IndexOfAnyIs(s, {'{'}, |w|);
    var rest := s[|w| + 1..];
    assert rest == body + ['}'];
    IndexOfAnyIs(rest, {'}'}, |body|);
  }

  /** A word followed directly by `{` is the name. */
  lemma WordThenBraceName(w: string, tail: string)
    requires AllWordChars(w)
    ensures TypeName(w + ['{'] + tail) == w
  {
    var s := w + ['{'] + tail;
    assert forall j :: 0 <= j < |w| ==> s[j] == w[j] && s[j] !in {'(', '{'};
    assert s[|w|] == '{';
    IndexOfAnyIs(s, {'(', '{'}, |w|);
    NameBeforeSpaces(s, |w|);
    assert s[..|w|] == w;
  }

  /** A word followed directly by `{` does not match the parameter pattern. */
  lemma WordThenBrace(w: string, tail: string)
    requires AllWordChars(w)
    ensures !ParamsGuard(w + ['{'] + tail)
  {
    var s := w + ['{'] + tail;
    assert forall j :: 0 <= j < |w| ==> s[j] == w[j];
    LeadingCountIs(s, IsWordChar, |w|);
    assert s[|w|..][0] == '{';
    LeadingCountIs(s[|w|..], IsRegexSpace, 0);
  }

  /** The property text split on `,`, as `String.split` returns it. */
  function PropPieces(s: string): seq<string>
    requires '{' in s
  {
    JavaSplit(PropText(s), ',')
  }

  /** `token.split(":", 2)`: the key before the first `:` and, when there is
      a `:`, the value after it (which may hold further `:`). Neither part is
      trimmed. */
  function SplitKeyValue(token: string): (kv: (string, Option<string>))
    ensures ':' !in kv.0
    ensures kv.1.None? <==> ':' !in token
    ensures kv.1.None? ==> kv.0 == token
  {
    var i := IndexOf(token, ':');
    if i == |token| then (token, None) else (token[..i], Some(token[i + 1..]))
  }

  /** A token with a colon is its key, the colon and its value. */
  lemma SplitKeyValueJoin(token: string)
    ensures var kv := SplitKeyValue(token);
      kv.1.Some? ==> token == kv.0 + [':'] + kv.1.value
  {
    var i := IndexOf(token, ':');
    if i < |token| {
      assert token == token[..i] + [':'] + token[i + 1..];
    }
  }

  /** A key without a colon, a colon and any value split back into that key
      and that value. */
  lemma SplitKeyValueOf(key: string, value: string)
    requires ':' !in key
    ensures SplitKeyValue(key + [':'] + value) == (key, Some(value))
  {
    var token := key + [':'] + value;
    assert token[|key|] == ':';
    IndexOfAnyIs(token, {':'}, |key|);
    assert token[..|key|] == key && token[|key| + 1..] == value;
  }
}
