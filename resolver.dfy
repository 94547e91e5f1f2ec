/** What `DataTypeFactory.fromDescription` returns for a description and a
    registry: the kind chosen by a case-insensitive lookup of the name (or
    the `UnknownType` fallback), the positional parameters, then the
    properties applied in order, any of which may fail the whole call. */
module Resolver {
  import opened Text
  import opened Registry
  import opened Description

  /** The implementation a description resolves to: the head of a
      registry bucket, or the fallback `UnknownType` carrying the name with
      its case as written. */
  datatype Kind = Known(descriptor: Descriptor) | Unknown(name: string)

  /** A configured instance: its kind, the parameters added to it in order
      and the properties set on it. */
  datatype DataType = DataType(kind: Kind, params: seq<string>, props: map<string, string>)

  /** The result of a resolution: the configured instance, or the failure
      "Unknown property <key> for <class name>". */
  datatype Outcome = Resolved(value: DataType) | UnknownProperty(key: string, kindName: string)

  /** The class name of the fallback. */
  const UnknownTypeClass: string := "liquibase.datatype.core.UnknownType"

  /** The class name the failure message reports. */
  function KindName(k: Kind): string {
    match k
    case Known(d) => d.id
    case Unknown(_) => UnknownTypeClass
  }

  /** The property names the property setter accepts on an instance of
      this kind; the fallback accepts none. */
  function Settable(k: Kind): set<string> {
    match k
    case Known(d) => d.settable
    case Unknown(_) => {}
  }

  /** The case-insensitive lookup: the first entry of the bucket of the
      lower-cased name, which has the highest priority of the bucket; the
      fallback with the name as given when there is no bucket. */
  function Lookup(m: Table, name: string): (k: Kind)
    requires WellFormed(m)
    ensures k.Known? <==> Lower(name) in m
    ensures k.Known? ==> k.descriptor in m[Lower(name)]
    ensures k.Known? ==> forall i :: 0 <= i < |m[Lower(name)]| && m[Lower(name)][i] != k.descriptor ==>
      m[Lower(name)][i].priority < k.descriptor.priority
    ensures k.Unknown? ==> k.name == name
  {
    var key := Lower(name);
    if key in m then Known(m[key][0]) else Unknown(name)
  }

  // ---------------------------------------------------------------------
  // Properties

  /** The key a non-blank property piece names: the trimmed token up to its
      first `:`, or the whole token when it has no `:`. */
  function PieceKey(piece: string): Option<string> {
    match TrimToNull(piece)
    case None => None
    case Some(token) => Some(SplitKeyValue(token).0)
  }

  /** The value a property piece gives, if it is non-blank and has a `:`. */
  function PieceValue(piece: string): Option<string> {
    match TrimToNull(piece)
    case None => None
    case Some(token) => SplitKeyValue(token).1
  }

  /** A piece that the property setter accepts on `kind`: blank, or a
      `key:value` token whose key is settable. */
  predicate PieceOk(kind: Kind, piece: string) {
    PieceKey(piece).None? || (PieceValue(piece).Some? && PieceKey(piece).value in Settable(kind))
  }

  /** The loop over the property pieces: each non-blank piece is trimmed and
      split at its first `:`; the first one without a `:` or whose key is
      not settable fails the call, the others set their key in order. */
  function ApplyProps(t: DataType, pieces: seq<string>): (r: Outcome)
    ensures r.Resolved? ==> r.value.kind == t.kind && r.value.params == t.params
    ensures r.UnknownProperty? ==> r.kindName == KindName(t.kind)
    decreases |pieces|
  {
    if pieces == [] then Resolved(t)
    else
      var key := PieceKey(pieces[0]);
      if key.None? then ApplyProps(t, pieces[1..])
      else if !PieceOk(t.kind, pieces[0]) then UnknownProperty(key.value, KindName(t.kind))
      else ApplyProps(t.(props := t.props[key.value := PieceValue(pieces[0]).value]), pieces[1..])
  }

  /** One step of ApplyProps, stated as the loop body of the source takes
      it: trim the piece, split the token at its first `:`, then fail or set. */
  lemma ApplyPropsStep(t: DataType, pieces: seq<string>)
    requires pieces != []
    ensures ApplyProps(t, pieces) ==
      match TrimToNull(pieces[0])
      case None => ApplyProps(t, pieces[1..])
      case Some(token) =>
        var kv := SplitKeyValue(token);
        if kv.1.None? || kv.0 !in Settable(t.kind) then UnknownProperty(kv.0, KindName(t.kind))
        else ApplyProps(t.(props := t.props[kv.0 := kv.1.value]), pieces[1..])
  {
  }

  /** The instance after one accepted piece: unchanged for a blank piece,
      otherwise with the piece's key set to its value. */
  function SetPiece(t: DataType, piece: string): DataType {
    match PieceKey(piece)
    case None => t
    case Some(k) =>
      match PieceValue(piece)
      case None => t
      case Some(v) => t.(props := t.props[k := v])
  }

  /** A successful application accepted the first piece and continued
      from the instance it produced. */
  lemma ApplyPropsHead(t: DataType, pieces: seq<string>)
    requires pieces != [] && ApplyProps(t, pieces).Resolved?
    ensures PieceOk(t.kind, pieces[0])
    ensures ApplyProps(t, pieces) == ApplyProps(SetPiece(t, pieces[0]), pieces[1..])
  {
  }

  /** Blank pieces alone leave the instance as it is. */
  lemma {:induction false} ApplyPropsBlanks(t: DataType, q: seq<string>)
    requires forall j :: 0 <= j < |q| ==> Blank(q[j])
    ensures ApplyProps(t, q) == Resolved(t)
    decreases |q|
  {
    if q != [] {
      ApplyPropsBlanks(t, q[1..]);
    }
  }

  /** Blank pieces after the last token change nothing: `word{k:v,}` and
      `word{k:v, }` resolve as `word{k:v}` does. */
  lemma {:induction false} ApplyPropsBlankTail(t: DataType, p: seq<string>, q: seq<string>)
    requires forall j :: 0 <= j < |q| ==> Blank(q[j])
    ensures ApplyProps(t, p + q) == ApplyProps(t, p)
    decreases |p|
  {
    if p == [] {
      assert p + q == q;
      ApplyPropsBlanks(t, q);
    } else {
      assert (p + q)[0] == p[0] && (p + q)[1..] == p[1..] + q;
      var key := PieceKey(p[0]);
      if key.None? {
        ApplyPropsBlankTail(t, p[1..], q);
      } else if PieceOk(t.kind, p[0]) {
        ApplyPropsBlankTail(t.(props := t.props[key.value := PieceValue(p[0]).value]), p[1..], q);
      }
    }
  }

  /** So the trailing empty pieces Java's `split` drops make no difference. */
  lemma ApplyPropsDropTrailing(t: DataType, p: seq<string>)
    ensures ApplyProps(t, DropTrailingEmpty(p)) == ApplyProps(t, p)
  {
    var d := DropTrailingEmpty(p);
    assert p == d + p[|d|..];
    ApplyPropsBlankTail(t, d, p[|d|..]);
  }

  /** The index of the first piece `kind` does not accept, or `|pieces|`. */
  function FirstRejected(kind: Kind, pieces: seq<string>): (i: nat)
    ensures i <= |pieces|
    ensures forall j :: 0 <= j < i ==> PieceOk(kind, pieces[j])
    ensures i < |pieces| ==> !PieceOk(kind, pieces[i])
  {
    if pieces == [] then 0
    else if !PieceOk(kind, pieces[0]) then 0
    else 1 + FirstRejected(kind, pieces[1..])
  }

  /** Applying properties fails exactly when some piece is not accepted,
      and the failure names the key of the first such piece. */
  lemma {:induction false} ApplyPropsOutcome(t: DataType, pieces: seq<string>)
    ensures var i := FirstRejected(t.kind, pieces);
      && (ApplyProps(t, pieces).UnknownProperty? <==> i < |pieces|)
      && (i < |pieces| ==> PieceKey(pieces[i]) == Some(ApplyProps(t, pieces).key))
    decreases |pieces|
  {
    if pieces != [] && PieceOk(t.kind, pieces[0]) {
      var key := PieceKey(pieces[0]);
      if key.None? {
        ApplyPropsOutcome(t, pieces[1..]);
      } else {
        ApplyPropsOutcome(t.(props := t.props[key.value := PieceValue(pieces[0]).value]), pieces[1..]);
      }
    }
  }

  /** Applying properties succeeds exactly when every piece is accepted. */
  lemma ApplyPropsSucceeds(t: DataType, pieces: seq<string>)
    ensures ApplyProps(t, pieces).Resolved? <==>
      forall i :: 0 <= i < |pieces| ==> PieceOk(t.kind, pieces[i])
  {
    ApplyPropsOutcome(t, pieces);
  }

  /** The keys the non-blank pieces name. */
  function Named(pieces: seq<string>): set<string>
    decreases |pieces|
  {
    if pieces == [] then {}
    else
      var rest := Named(pieces[1..]);
      match PieceKey(pieces[0])
      case None => rest
      case Some(k) => {k} + rest
  }

  /** After a successful application, a property that no piece names
      keeps its value (or its absence). */
  lemma {:induction false} ApplyPropsUnnamed(t: DataType, pieces: seq<string>, key: string)
    requires ApplyProps(t, pieces).Resolved? && key !in Named(pieces)
    ensures key in ApplyProps(t, pieces).value.props <==> key in t.props
    ensures key in t.props ==> ApplyProps(t, pieces).value.props[key] == t.props[key]
    decreases |pieces|
  {
    if pieces != [] {
      ApplyPropsHead(t, pieces);
      ApplyPropsUnnamed(SetPiece(t, pieces[0]), pieces[1..], key);
    }
  }

  /** After a successful application, a property holds the value of the
      last piece that names it. */
  lemma {:induction false} ApplyPropsLast(t: DataType, pieces: seq<string>, key: string, i: nat)
    requires ApplyProps(t, pieces).Resolved?
    requires i < |pieces| && PieceKey(pieces[i]) == Some(key) && key !in Named(pieces[i + 1..])
    ensures PieceValue(pieces[i]).Some?
    ensures key in ApplyProps(t, pieces).value.props
    ensures ApplyProps(t, pieces).value.props[key] == PieceValue(pieces[i]).value
    decreases |pieces|
  {
    if i == 0 {
      LastIsFirst(t, pieces, key);
    } else {
      var t', rest := SetPiece(t, pieces[0]), pieces[1..];
      assert ApplyProps(t, pieces) == ApplyProps(t', rest) by {
        ApplyPropsHead(t, pieces);
      }
      assert rest[i - 1] == pieces[i] && rest[i..] == pieces[i + 1..];
      ApplyPropsLast(t', rest, key, i - 1);
    }
  }

  /** ApplyPropsLast when the first piece is the last to name the key. */
  lemma LastIsFirst(t: DataType, pieces: seq<string>, key: string)
    requires ApplyProps(t, pieces).Resolved?
    requires pieces != [] && PieceKey(pieces[0]) == Some(key) && key !in Named(pieces[1..])
    ensures PieceValue(pieces[0]).Some?
    ensures key in ApplyProps(t, pieces).value.props
    ensures ApplyProps(t, pieces).value.props[key] == PieceValue(pieces[0]).value
  {
    ApplyPropsHead(t, pieces);
    var t' := SetPiece(t, pieces[0]);
    assert t'.props == t.props[key := PieceValue(pieces[0]).value];
    ApplyPropsUnnamed(t', pieces[1..], key);
  }

  // ---------------------------------------------------------------------
  // Resolution

  /** `fromDescription` on a description without line terminators; the
      lemmas below describe this model, which on a description with a line
      terminator departs from the Java regular expressions (there `.` does
      not match it), so they are claims about the source only for
      descriptions satisfying NoLineTerminators. */
  function Resolve(m: Table, s: string): Outcome
    requires WellFormed(m)
  {
    var kind := Lookup(m, TypeName(s));
    var params := if ParamsGuard(s) then Params(s) else [];
    var t := DataType(kind, params, map[]);
    if '{' in s then ApplyProps(t, PropPieces(s)) else Resolved(t)
  }

  /** The kind is the head of the bucket of the lower-cased name, else the
      fallback with the name as extracted; the parameters are those of the
      description when it has the `word(` shape, else none. A failure can
      come only from a property: a name, known or not, never fails. */
  lemma ResolveShape(m: Table, s: string)
    requires WellFormed(m)
    ensures var r := Resolve(m, s);
      && (r.Resolved? ==> r.value.kind == Lookup(m, TypeName(s)))
      && (r.Resolved? ==> r.value.params == (if ParamsGuard(s) then Params(s) else []))
      && (r.UnknownProperty? ==> '{' in s && r.kindName == KindName(Lookup(m, TypeName(s))))
      && ('{' !in s ==> r == Resolved(DataType(Lookup(m, TypeName(s)), r.value.params, map[])))
  {
  }

  /** Resolution fails exactly when the description has a property piece
      that the resolved kind does not accept. */
  lemma ResolveFails(m: Table, s: string)
    requires WellFormed(m)
    ensures Resolve(m, s).UnknownProperty? <==>
      '{' in s && exists i :: 0 <= i < |PropPieces(s)| && !PieceOk(Lookup(m, TypeName(s)), PropPieces(s)[i])
  {
    if '{' in s {
      var params := if ParamsGuard(s) then Params(s) else [];
      ApplyPropsSucceeds(DataType(Lookup(m, TypeName(s)), params, map[]), PropPieces(s));
    }
  }

  /** Lookup ignores case: two descriptions whose names differ only in case
      resolve to the same registered implementation. */
  lemma ResolveIgnoresCase(m: Table, s1: string, s2: string)
    requires WellFormed(m)
    requires Lower(TypeName(s1)) == Lower(TypeName(s2)) && Lower(TypeName(s1)) in m
    ensures Lookup(m, TypeName(s1)) == Lookup(m, TypeName(s2)) == Known(m[Lower(TypeName(s1))][0])
  {
  }

  /** Once the key of a name is removed, that name resolves to the fallback
      carrying the name as written, however many implementations the bucket
      held. */
  lemma ResolveAfterUnregister(m: Table, s: string, removed: string)
    requires WellFormed(m) && Lower(removed) == Lower(TypeName(s))
    ensures WellFormed(m - {Lower(removed)})
    ensures Lookup(m - {Lower(removed)}, TypeName(s)) == Unknown(TypeName(s))
    ensures '{' !in s ==>
      Resolve(m - {Lower(removed)}, s) ==
      Resolved(DataType(Unknown(TypeName(s)), if ParamsGuard(s) then Params(s) else [], map[]))
  {
  }

  /** A description without brackets is its own name, untrimmed, and has
      neither parameters nor properties. */
  lemma ResolveBare(m: Table, s: string)
    requires WellFormed(m) && '(' !in s && '{' !in s
    ensures TypeName(s) == s
    ensures Resolve(m, s) == Resolved(DataType(Lookup(m, s), [], map[]))
  {
  }

  /** Descriptions of the shape `word(p1,...,pn)` resolve to the kind of
      `word` with the non-blank pieces, trimmed, as parameters and no
      property. */
  lemma ResolveWordWithParams(m: Table, w: string, pieces: seq<string>)
    requires WellFormed(m)
    requires w != [] && AllWordChars(w)
    requires |pieces| >= 1
    requires forall i :: 0 <= i < |pieces| ==> ',' !in pieces[i] && ')' !in pieces[i] && '{' !in pieces[i]
    ensures Resolve(m, w + ['('] + Join(pieces, ',') + [')']) ==
      Resolved(DataType(Lookup(m, w), NonBlank(pieces), map[]))
  {
    var body := Join(pieces, ',');
    JoinExcludes(pieces, ',', ')');
    JoinExcludes(pieces, ',', '{');
    WordThenParams(w, body);
    SplitJoin(pieces, ',');
    NonBlankJavaSplit(body, ',');
  }

  /** Descriptions of the shape `word{t1,...,tn}` resolve to the outcome of
      applying the tokens, in order, to the kind of `word` without
      parameters. */
  lemma ResolveWordWithProps(m: Table, w: string, tokens: seq<string>)
    requires WellFormed(m)
    requires AllWordChars(w)
    requires |tokens| >= 1
    requires forall i :: 0 <= i < |tokens| ==> ',' !in tokens[i] && '}' !in tokens[i]
    ensures Resolve(m, w + ['{'] + Join(tokens, ',') + ['}']) ==
      ApplyProps(DataType(Lookup(m, w), [], map[]), tokens)
  {
    var body := Join(tokens, ',');
    JoinExcludes(tokens, ',', '}');
    WordThenProps(w, body);
    SplitJoin(tokens, ',');
    ApplyPropsDropTrailing(DataType(Lookup(m, w), [], map[]), tokens);
  }

  lemma {:induction false} JoinExcludes(pieces: seq<string>, sep: char, c: char)
    requires |pieces| >= 1 && c != sep
    requires forall i :: 0 <= i < |pieces| ==> c !in pieces[i]
    ensures c !in Join(pieces, sep)
  {
    if |pieces| > 1 {
      JoinExcludes(pieces[1..], sep, c);
      assert pieces[0] == pieces[0];
    }
  }
}
