/** The factory object: its registry field, changed in place by `register`
    and `unregister`, and `fromDescription`, which builds a fresh instance
    and then adds the parameters and sets the properties one token at a
    time. */
module Factory {
  import opened Text
  import opened Registry
  import opened Description
  import opened Resolver

  class DataTypeFactory {
    /** Lower-cased name or alias to the implementations registered under
        it, highest priority first. */
    var registry: Table

    ghost predicate Valid()
      reads this
    {
      WellFormed(registry)
    }

    /** Registers the given implementations in order, as the constructor
        does with those the service locator finds. */
    constructor (descriptors: seq<Descriptor>)
      ensures Valid()
      ensures registry == RegisterAll(map[], descriptors)
    {
      registry := map[];
      new;
      var i := 0;
      while i < |descriptors|
        invariant 0 <= i <= |descriptors|
        invariant Valid()
        invariant RegisterAll(registry, descriptors[i..]) == RegisterAll(map[], descriptors)
      {
        assert descriptors[i..][1..] == descriptors[i + 1..];
        Register(descriptors[i]);
        i := i + 1;
      }
    }

    /** Adds `d` to the bucket of its lower-cased name and of each
        lower-cased alias, creating a bucket where there is none. */
    method Register(d: Descriptor)
      requires Valid()
      modifies this
      ensures Valid()
      ensures registry == Registered(old(registry), d)
    {
      var names := [d.name] + d.aliases;
      var i := 0;
      while i < |names|
        invariant 0 <= i <= |names|
        invariant WellFormed(registry)
        invariant RegisterNames(registry, names[i..], d) == Registered(old(registry), d)
      {
        var key := Lower(names[i]);
        var bucket := if key in registry then registry[key] else [];
        InsertDescending(bucket, d);
        registry := registry[key := Insert(bucket, d)];
        assert names[i..][1..] == names[i + 1..];
        i := i + 1;
      }
    }

    /** Removes the bucket of the lower-cased name, with every
        implementation in it; other names are untouched. */
    method Unregister(name: string)
      requires Valid()
      modifies this
      ensures Valid()
      ensures registry == old(registry) - {Lower(name)}
      ensures Lower(name) !in old(registry) ==> registry == old(registry)
    {
      registry := registry - {Lower(name)};
    }

    /** Resolves a description: looks the name up, then adds each non-blank
        parameter and sets each property in turn, stopping at the first
        property the instance does not accept. */
    method FromDescription(s: string) returns (r: Outcome)
      requires Valid() && NoLineTerminators(s)
      ensures r == Resolve(registry, s)
    {
      var name := TypeName(s);
      var key := Lower(name);
      var kind: Kind;
      if key in registry {
        kind := Known(registry[key][0]);
      } else {
        kind := Unknown(name);
      }
      assert kind == Lookup(registry, name);
      var t := DataType(kind, [], map[]);

      if ParamsGuard(s) {
        t := AddParameters(t, JavaSplit(ParamText(s), ','));
      }
      assert t == DataType(kind, if ParamsGuard(s) then Params(s) else [], map[]);
      if '{' in s {
        r := SetProperties(t, PropPieces(s));
      } else {
        r := Resolved(t);
      }
    }
  }

  /** The parameter loop of `fromDescription`: each piece is trimmed and,
      unless blank, added to the instance's parameters, in order. */
  method AddParameters(t: DataType, pieces: seq<string>) returns (u: DataType)
    ensures u.kind == t.kind && u.props == t.props
    ensures u.params == t.params + NonBlank(pieces)
  {
    u := t;
    var i := 0;
    while i < |pieces|
      invariant 0 <= i <= |pieces|
      invariant u.kind == t.kind && u.props == t.props
      invariant u.params == t.params + NonBlank(pieces[..i])
    {
      ghost var before := NonBlank(pieces[..i]);
      var param := TrimToNull(pieces[i]);
      assert NonBlank(pieces[..i + 1]) == if param.Some? then before + [param.value] else before by {
        NonBlankPrefix(pieces, i);
      }
      if param.Some? {
        u := u.(params := u.params + [param.value]);
        assert u.params == t.params + (before + [param.value]);
      }
      i := i + 1;
    }
    assert pieces[..|pieces|] == pieces;
  }

  /** The property loop of `fromDescription`: each non-blank token is split
      at its first colon and its value set on the instance, stopping at the
      first token without a value or naming a property the instance lacks. */
  method SetProperties(t: DataType, pieces: seq<string>) returns (r: Outcome)
    ensures r == ApplyProps(t, pieces)
  {
    var u := t;
    var i := 0;
    while i < |pieces|
      invariant 0 <= i <= |pieces|
      invariant ApplyProps(u, pieces[i..]) == ApplyProps(t, pieces)
    {
      ApplyPropsStep(u, pieces[i..]);
      assert pieces[i..][0] == pieces[i];
      var token := TrimToNull(pieces[i]);
      if token.Some? {
        var kv := SplitKeyValue(token.value);
        if kv.1.None? || kv.0 !in Settable(u.kind) {
          return UnknownProperty(kv.0, KindName(u.kind));
        }
        u := u.(props := u.props[kv.0 := kv.1.value]);
      }
      assert pieces[i..][1..] == pieces[i + 1..];
      i := i + 1;
    }
    r := Resolved(u);
  }
}
