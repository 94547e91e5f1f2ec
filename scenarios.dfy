/** Example descriptions — `VARCHAR(10)` and `varchar(10)`,
    `decimal(10,2)`, `decimal(10, 2)`, `varchar()`, `double precision(10)`,
    `custom{scale:2,unsigned:true}`, an unknown property,
    an unregistered name — each stated for every description of its shape
    and every well-formed registry. */
module Scenarios {
  import opened Text
  import opened Registry
  import opened Description
  import opened Resolver

  /** A comma-free, bracket-free piece of parameter text. */
  predicate PlainParam(p: string) {
    ',' !in p && ')' !in p && '{' !in p
  }

  /** Two spellings of a registered name that differ only in case, as
      `VARCHAR(10)` and `varchar(10)`, resolve to the same result: the head
      of the name's bucket with the same parameters. */
  lemma ParamsAnyCase(m: Table, w1: string, w2: string, pieces: seq<string>)
    requires WellFormed(m)
    requires w1 != [] && AllWordChars(w1) && w2 != [] && AllWordChars(w2)
    requires Lower(w1) == Lower(w2) && Lower(w1) in m
    requires |pieces| >= 1 && forall i :: 0 <= i < |pieces| ==> PlainParam(pieces[i])
    ensures Resolve(m, w1 + ['('] + Join(pieces, ',') + [')']) == Resolve(m, w2 + ['('] + Join(pieces, ',') + [')'])
    ensures Resolve(m, w1 + ['('] + Join(pieces, ',') + [')']) ==
      Resolved(DataType(Known(m[Lower(w1)][0]), NonBlank(pieces), map[]))
  {
    ResolveWordWithParams(m, w1, pieces);
    ResolveWordWithParams(m, w2, pieces);
  }

  /** `VARCHAR` and `varchar` are such spellings. */
  lemma VarcharSpellings()
    ensures Lower("VARCHAR") == "varchar" && Lower("varchar") == "varchar"
  {
    assert LowerChar('V') == 'v' && LowerChar('A') == 'a' && LowerChar('R') == 'r';
    assert LowerChar('C') == 'c' && LowerChar('H') == 'h';
    LowerIs("VARCHAR", "varchar");
    assert IsLowerCase("varchar") by {
      LowerIs("varchar", "varchar");
    }
  }

  /** Lower-casing is determined character by character. */
  lemma LowerIs(s: string, t: string)
    requires |s| == |t| && forall i :: 0 <= i < |s| ==> t[i] == LowerChar(s[i])
    ensures Lower(s) == t
  {
  }

  /** Two clean parameters, as in `decimal(10,2)`, are kept in order. */
  lemma TwoParams(m: Table, w: string, a: string, b: string)
    requires WellFormed(m) && w != [] && AllWordChars(w)
    requires Clean(a) && Clean(b) && PlainParam(a) && PlainParam(b)
    ensures Resolve(m, w + ['('] + a + [','] + b + [')']) == Resolved(DataType(Lookup(m, w), [a, b], map[]))
  {
    var pieces := [a, b];
    assert Join(pieces, ',') == a + [','] + b by {
      assert pieces[1..] == [b];
    }
    assert w + ['('] + a + [','] + b + [')'] == w + ['('] + Join(pieces, ',') + [')'];
    ResolveWordWithParams(m, w, pieces);
    NonBlankClean(pieces);
  }

  /** Blanks around a parameter, as in `decimal(10, 2)`, are trimmed away. */
  lemma PaddedParams(m: Table, w: string, a: string, pre: string, b: string, post: string)
    requires WellFormed(m) && w != [] && AllWordChars(w)
    requires Clean(a) && Clean(b) && PlainParam(a) && PlainParam(b)
    requires Blank(pre) && Blank(post)
    ensures Resolve(m, w + ['('] + a + [','] + (pre + b + post) + [')']) ==
      Resolved(DataType(Lookup(m, w), [a, b], map[]))
  {
    var padded := pre + b + post;
    PaddedPlain(pre, b, post);
    var pieces := [a, padded];
    assert Join(pieces, ',') == a + [','] + padded by {
      assert pieces[1..] == [padded];
    }
    assert w + ['('] + a + [','] + padded + [')'] == w + ['('] + Join(pieces, ',') + [')'];
    ResolveWordWithParams(m, w, pieces);
    PaddedPieces(a, pre, b, post);
  }

  lemma PaddedPlain(pre: string, b: string, post: string)
    requires PlainParam(b) && Blank(pre) && Blank(post)
    ensures PlainParam(pre + b + post)
  {
    var padded := pre + b + post;
    assert forall i :: 0 <= i < |pre| ==> padded[i] == pre[i];
    assert forall i :: 0 <= i < |b| ==> padded[|pre| + i] == b[i];
    assert forall i :: 0 <= i < |post| ==> padded[|pre| + |b| + i] == post[i];
  }

  lemma PaddedPieces(a: string, pre: string, b: string, post: string)
    requires Clean(a) && Clean(b) && Blank(pre) && Blank(post)
    ensures NonBlank([a, pre + b + post]) == [a, b]
  {
    var padded := pre + b + post;
    assert [a, padded] == [a] + [padded];
    NonBlankAppend([a], [padded]);
    NonBlankClean([a]);
    NonBlankOne(padded);
    TrimAround(pre, b, post);
  }

  /** Empty brackets, as in `varchar()`, give no parameter. */
  lemma EmptyBrackets(m: Table, w: string)
    requires WellFormed(m) && w != [] && AllWordChars(w)
    ensures Resolve(m, w + ['(', ')']) == Resolved(DataType(Lookup(m, w), [], map[]))
  {
    assert Join([""], ',') == "";
    assert w + ['(', ')'] == w + ['('] + Join([""], ',') + [')'];
    ResolveWordWithParams(m, w, [""]);
    NonBlankBlank([""]);
  }

  /** A two-word name, as in `double precision(10)`, does not match the
      parameter pattern: the bracketed text is not read, and the name is
      both words with the space between them. */
  lemma TwoWordName(m: Table, w1: string, w2: string, body: string)
    requires WellFormed(m)
    requires w1 != [] && AllWordChars(w1) && w2 != [] && AllWordChars(w2) && '{' !in body
    ensures var s := w1 + [' '] + w2 + ['('] + body + [')'];
      Resolve(m, s) == Resolved(DataType(Lookup(m, w1 + [' '] + w2), [], map[]))
  {
    var s := w1 + [' '] + w2 + ['('] + body + [')'];
    TwoWordNoParams(w1, w2, body);
    TwoWordTypeName(w1, w2, body);
    assert '{' !in w1 && '{' !in w2;
    assert '{' !in s;
    ResolveShape(m, s);
  }

  lemma TwoWordNoParams(w1: string, w2: string, body: string)
    requires w1 != [] && AllWordChars(w1) && w2 != []
    requires !IsRegexSpace(w2[0]) && w2[0] != '('
    ensures !ParamsGuard(w1 + [' '] + w2 + ['('] + body + [')'])
  {
    var s := w1 + [' '] + w2 + ['('] + body + [')'];
    assert forall j :: 0 <= j < |w1| ==> s[j] == w1[j];
    assert s[|w1|] == ' ';
    assert s[|w1|..][0] == ' ' && s[|w1|..][1] == w2[0];
    LeadingCountIs(s, IsWordChar, |w1|);
    LeadingCountIs(s[|w1|..], IsRegexSpace, 1);
  }

  lemma TwoWordTypeName(w1: string, w2: string, body: string)
    requires AllWordChars(w1) && w2 != [] && AllWordChars(w2)
    ensures TypeName(w1 + [' '] + w2 + ['('] + body + [')']) == w1 + [' '] + w2
  {
    var name := w1 + [' '] + w2;
    var s := name + ['('] + body + [')'];
    assert forall j :: 0 <= j < |name| ==> s[j] == name[j] && s[j] !in {'(', '{'};
    IndexOfAnyIs(s, {'(', '{'}, |name|);
    TypeNameBeforeBracket(s);
    assert s[..|name|] == name;
    TrimEndSpacesIs(name, |name|);
  }

  /** A description without brackets whose name is not registered resolves
      to the fallback carrying the name exactly as written. */
  lemma UnregisteredKeepsCase(m: Table, s: string)
    requires WellFormed(m) && '(' !in s && '{' !in s && Lower(s) !in m
    ensures Resolve(m, s) == Resolved(DataType(Unknown(s), [], map[]))
  {
    ResolveBare(m, s);
  }

  /** After the name's key is removed, a parameterised description resolves
      to the fallback, named as written and still with its parameters. */
  lemma ParamsAfterUnregister(m: Table, w: string, pieces: seq<string>)
    requires WellFormed(m) && w != [] && AllWordChars(w)
    requires |pieces| >= 1 && forall i :: 0 <= i < |pieces| ==> PlainParam(pieces[i])
    ensures WellFormed(m - {Lower(w)})
    ensures Resolve(m - {Lower(w)}, w + ['('] + Join(pieces, ',') + [')']) ==
      Resolved(DataType(Unknown(w), NonBlank(pieces), map[]))
  {
    ResolveWordWithParams(m - {Lower(w)}, w, pieces);
  }

  /** One step of the property loop on a clean `key:value` token whose key
      is settable. */
  lemma PropsStep(t: DataType, key: string, value: string, rest: seq<string>)
    requires Clean(key + [':'] + value) && ':' !in key && key in Settable(t.kind)
    ensures ApplyProps(t, [key + [':'] + value] + rest) == ApplyProps(t.(props := t.props[key := value]), rest)
  {
    var token := key + [':'] + value;
    TrimToNullClean(token);
    SplitKeyValueOf(key, value);
    ApplyPropsStep(t, [token] + rest);
    assert ([token] + rest)[1..] == rest;
  }

  /** A comma-free, brace-free property token. */
  predicate PlainProp(p: string) {
    ',' !in p && '}' !in p
  }

  /** Two settable properties, as in `custom{scale:2,unsigned:true}`, are
      set in order, each to the text after its first colon. */
  lemma TwoProps(m: Table, w: string, k1: string, v1: string, k2: string, v2: string)
    requires WellFormed(m) && AllWordChars(w)
    requires Clean(k1 + [':'] + v1) && ':' !in k1 && PlainProp(k1 + [':'] + v1)
    requires Clean(k2 + [':'] + v2) && ':' !in k2 && PlainProp(k2 + [':'] + v2)
    requires k1 in Settable(Lookup(m, w)) && k2 in Settable(Lookup(m, w))
    ensures Resolve(m, w + ['{'] + (k1 + [':'] + v1) + [','] + (k2 + [':'] + v2) + ['}']) ==
      Resolved(DataType(Lookup(m, w), [], map[k1 := v1, k2 := v2]))
  {
    var t1 := k1 + [':'] + v1;
    var t2 := k2 + [':'] + v2;
    TwoTokens(m, w, t1, t2);
    TwoSettable(DataType(Lookup(m, w), [], map[]), k1, v1, k2, v2);
  }

  /** Two clean tokens with settable keys, applied to an instance with no
      properties, set exactly those two keys. */
  lemma TwoSettable(d0: DataType, k1: string, v1: string, k2: string, v2: string)
    requires d0.props == map[]
    requires Clean(k1 + [':'] + v1) && ':' !in k1 && k1 in Settable(d0.kind)
    requires Clean(k2 + [':'] + v2) && ':' !in k2 && k2 in Settable(d0.kind)
    ensures ApplyProps(d0, [k1 + [':'] + v1] + [k2 + [':'] + v2]) ==
      Resolved(d0.(props := map[k1 := v1, k2 := v2]))
  {
    var t2 := k2 + [':'] + v2;
    var d1 := d0.(props := map[k1 := v1]);
    PropsStep(d0, k1, v1, [t2]);
    assert [t2] == [t2] + [];
    PropsStep(d1, k2, v2, []);
  }

  lemma TwoTokens(m: Table, w: string, t1: string, t2: string)
    requires WellFormed(m) && AllWordChars(w)
    requires PlainProp(t1) && PlainProp(t2)
    ensures Resolve(m, w + ['{'] + t1 + [','] + t2 + ['}']) ==
      ApplyProps(DataType(Lookup(m, w), [], map[]), [t1] + [t2])
  {
    var tokens := [t1, t2];
    assert Join(tokens, ',') == t1 + [','] + t2 by {
      assert tokens[1..] == [t2];
    }
    assert w + ['{'] + t1 + [','] + t2 + ['}'] == w + ['{'] + Join(tokens, ',') + ['}'];
    ResolveWordWithProps(m, w, tokens);
    assert tokens == [t1] + [t2];
  }

  /** A single token, as in `custom{scale:2}`, is applied on its own. */
  lemma OneToken(m: Table, w: string, t: string)
    requires WellFormed(m) && AllWordChars(w) && PlainProp(t)
    ensures Resolve(m, w + ['{'] + t + ['}']) == ApplyProps(DataType(Lookup(m, w), [], map[]), [t])
  {
    assert Join([t], ',') == t;
    ResolveWordWithProps(m, w, [t]);
  }

  /** A property the resolved implementation does not accept fails the
      call, naming the property and the implementation. */
  lemma UnknownPropertyFails(m: Table, w: string, k: string, v: string)
    requires WellFormed(m) && AllWordChars(w)
    requires Clean(k + [':'] + v) && ':' !in k && PlainProp(k + [':'] + v)
    requires k !in Settable(Lookup(m, w))
    ensures Resolve(m, w + ['{'] + (k + [':'] + v) + ['}']) == UnknownProperty(k, KindName(Lookup(m, w)))
  {
    var token := k + [':'] + v;
    assert Join([token], ',') == token;
    ResolveWordWithProps(m, w, [token]);
    TrimToNullClean(token);
    SplitKeyValueOf(k, v);
    ApplyPropsStep(DataType(Lookup(m, w), [], map[]), [token]);
  }

  /** A token without a colon fails the call even when it names a settable
      property: it has no value. */
  lemma MissingValueFails(m: Table, w: string, k: string)
    requires WellFormed(m) && AllWordChars(w)
    requires Clean(k) && ':' !in k && PlainProp(k)
    ensures Resolve(m, w + ['{'] + k + ['}']) == UnknownProperty(k, KindName(Lookup(m, w)))
  {
    assert Join([k], ',') == k;
    ResolveWordWithProps(m, w, [k]);
    TrimToNullClean(k);
    ApplyPropsStep(DataType(Lookup(m, w), [], map[]), [k]);
  }
}
