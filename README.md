# Liquibase column-type resolver, modelled in Dafny

This project models the core of Liquibase's `DataTypeFactory`. That class
maps a textual column type such as `VARCHAR(10)`, `decimal(10,2)` or
`custom{scale:2,unsigned:true}` to an instance of the implementation class
registered for that type name.

The factory has two parts, and the model keeps both.

- **The type registry.** A map from a lower-cased type name or alias to a
  bucket of implementation classes. Each bucket is ordered by descending
  priority. The bucket is a `TreeSet` whose comparator compares priorities
  only, so an implementation whose priority equals that of one already in
  the bucket is not added. `register` and `unregister` change this map in
  place.
- **`fromDescription`.** It extracts the type name and looks up its
  lower-cased form. It takes the head (highest-priority entry) of the
  bucket, or falls back to an `UnknownType` that keeps the name as written.
  It then adds the positional parameters and sets the `key:value`
  properties, in order. A property the instance does not accept fails the
  call with "Unknown property <key> for <class>".

Modules:

- `Text` (`text.dfy`): the Java library behaviour the factory relies on.
  It covers `toLowerCase`, the regular-expression classes `\s` and `\w`,
  `String.trim` / `trimToNull`, and `String.split` on one character.
  `Split` keeps every piece, empty ones included. `JavaSplit` then drops
  the trailing empty pieces, as Java's `split` does.
- `Registry` (`registry.dfy`): descriptors, buckets, `TreeSet.add` with the
  priority comparator (`Insert`), and `register` as a function
  (`Registered`). The lemmas cover the registry's invariant, its frame and
  tie behaviour.
- `Description` (`description.dfy`): the string computations of
  `fromDescription`, each regular-expression call written out:
  - the two-step name extraction (`TypeName`);
  - the parameter guard `\w+\s*\(.*` (`ParamsGuard`);
  - the parameter and property text;
  - `split(":", 2)` (`SplitKeyValue`).
- `Resolver` (`resolver.dfy`): lookup with its fallback, the property loop
  as a function (`ApplyProps`), and the whole resolution as a function of
  the registry and the description (`Resolve`).
- `Factory` (`factory.dfy`): the class `DataTypeFactory`.
  - Its `registry` field is changed in place by the constructor, `Register`
    and `Unregister`.
  - `FromDescription` builds the result step by step, with its parameter
    loop (`AddParameters`) and property loop (`SetProperties`).
  - Each method is proved equal to the functions above.
- `Scenarios` (`scenarios.dfy`): example descriptions. Each one is proved
  for every description of its shape and every well-formed registry:
  - `VARCHAR(10)` against `varchar(10)`;
  - `decimal(10,2)`, and `decimal(10, 2)` with blanks around a parameter;
  - `varchar()`;
  - `double precision(10)`;
  - `custom{scale:2,unsigned:true}`;
  - an unknown property;
  - a property without a value;
  - an unregistered name, and a name after `unregister`.

Behaviour of `fromDescription` and `register` worth noting, as the code
has it:

- **The name is not trimmed as a whole.** Only the `\s` run directly before
  the first bracket is removed. A description without brackets is its own
  name, surrounding blanks included (`ResolveBare`,
  `TypeNameBeforeBracket`).
- **Property keys and values are not trimmed on their own.** Only the whole
  `key:value` token is trimmed. It is then split at its first colon
  (`SplitKeyValue`, `PropsStep`, `ApplyPropsLast`).
- **Ties in priority drop an implementation.** The implementation
  registered first under a name keeps its place (`InsertTie`,
  `RegisterTieKeepsBucket`). The model does not substitute a stable order.
  Re-registering the same descriptor is still idempotent
  (`RegisterIdempotent`), but that holds because priorities tie, not
  because identities are compared.

## Model

Every source cell is relative to the repository root;
`DataTypeFactory.java` stands for
`liquibase-core/src/main/java/liquibase/datatype/DataTypeFactory.java`.

| member | source | states |
|---|---|---|
| Text.Lower | liquibase-core/src/main/java/liquibase/datatype/DataTypeFactory.java:56 | lower-casing keeps the length, maps each character by ASCII lower-casing, yields a lower-case string, and leaves a lower-case string unchanged |
| Text.Trim | liquibase-core/src/main/java/liquibase/datatype/DataTypeFactory.java:114 | the trimmed string is empty exactly when every character is at most U+0020; otherwise neither end is such a character; it is never longer than the input, and each of its characters occurs in the input |
| Text.TrimInfix | liquibase-core/src/main/java/liquibase/datatype/DataTypeFactory.java:114 | the trimmed string is the part of the input between a prefix and a suffix made only of characters up to U+0020 |
| Text.TrimAround | liquibase-core/src/main/java/liquibase/datatype/DataTypeFactory.java:114 | blanks, then a clean piece, then blanks, trims to exactly that piece (so `10, 2` gives `2` for its second piece) |
| Text.TrimToNull | liquibase-core/src/main/java/liquibase/datatype/DataTypeFactory.java:114 | absent exactly when the piece is blank; otherwise the trimmed piece, which is non-empty with no blank at either end |
| Text.TrimToNullClean | liquibase-core/src/main/java/liquibase/datatype/DataTypeFactory.java:114 | a piece with no blank at either end is returned unchanged |
| Text.Split | liquibase-core/src/main/java/liquibase/datatype/DataTypeFactory.java:112 | at least one piece; exactly one when the separator does not occur; no piece contains the separator |
| Text.JoinSplit | liquibase-core/src/main/java/liquibase/datatype/DataTypeFactory.java:112 | joining the pieces with the separator gives back the text |
| Text.SplitJoin | liquibase-core/src/main/java/liquibase/datatype/DataTypeFactory.java:112 | splitting separator-free pieces joined by the separator gives back the pieces |
| Text.DropTrailingEmpty | liquibase-core/src/main/java/liquibase/datatype/DataTypeFactory.java:112 | the result is a prefix, everything after it is empty, and its last piece is not empty |
| Text.JavaSplit | liquibase-core/src/main/java/liquibase/datatype/DataTypeFactory.java:112 | `split` on one character: the whole text when the separator is absent; otherwise a prefix of all the pieces, with only empty pieces after it and a non-empty last piece |
| Text.NonBlank | liquibase-core/src/main/java/liquibase/datatype/DataTypeFactory.java:113-118 | no more entries than pieces, each non-empty with no blank at either end; NonBlankOne and NonBlankAppend fix its contents |
| Text.NonBlankOne | liquibase-core/src/main/java/liquibase/datatype/DataTypeFactory.java:114-117 | a single piece yields its trimmed form, or nothing when it is blank |
| Text.NonBlankAppend | liquibase-core/src/main/java/liquibase/datatype/DataTypeFactory.java:113-118 | filtering distributes over concatenation: the result for `a + b` is the result for `a` followed by the result for `b`, so entries keep the order of their pieces |
| Text.NonBlankClean | liquibase-core/src/main/java/liquibase/datatype/DataTypeFactory.java:113-118 | clean pieces pass through unchanged and in order |
| Text.NonBlankBlank | liquibase-core/src/main/java/liquibase/datatype/DataTypeFactory.java:113-118 | blank pieces all disappear |
| Text.NonBlankDropTrailing | liquibase-core/src/main/java/liquibase/datatype/DataTypeFactory.java:112-118 | dropping trailing empty pieces first changes nothing after filtering |
| Text.NonBlankJavaSplit | liquibase-core/src/main/java/liquibase/datatype/DataTypeFactory.java:112-118 | Java's split and the plain split give the same parameters |
| Registry.Insert | liquibase-core/src/main/java/liquibase/datatype/DataTypeFactory.java:58-68 | the bucket after adding is non-empty, holds an entry of the new priority, and holds nothing but the new entry and old entries |
| Registry.InsertDescending | liquibase-core/src/main/java/liquibase/datatype/DataTypeFactory.java:58-66 | adding keeps a bucket strictly descending by priority |
| Registry.InsertTie | liquibase-core/src/main/java/liquibase/datatype/DataTypeFactory.java:58-66 | adding an entry whose priority is already present leaves the bucket unchanged |
| Registry.InsertNew | liquibase-core/src/main/java/liquibase/datatype/DataTypeFactory.java:58-68 | adding an entry of a new priority adds exactly that entry once (as multisets) |
| Registry.InsertIdempotent | liquibase-core/src/main/java/liquibase/datatype/DataTypeFactory.java:68 | adding the same entry twice equals adding it once |
| Registry.InsertKeepsPriority | liquibase-core/src/main/java/liquibase/datatype/DataTypeFactory.java:68 | a priority present in a bucket stays present after adding |
| Registry.LowerAll | liquibase-core/src/main/java/liquibase/datatype/DataTypeFactory.java:51-56 | a key is in the set exactly when it is the lower-cased form of one of the names |
| Registry.RegisterNames | liquibase-core/src/main/java/liquibase/datatype/DataTypeFactory.java:55-69 | the loop over the names, each lower-cased key getting the descriptor added to its bucket; RegisterNamesAt states its effect key by key |
| Registry.Registered | liquibase-core/src/main/java/liquibase/datatype/DataTypeFactory.java:48-73 | `register` on the name and the aliases; RegisteredAt and the Register lemmas state its effect |
| Registry.RegisterNamesAt | liquibase-core/src/main/java/liquibase/datatype/DataTypeFactory.java:55-69 | after the loop over the names: the keys are the old ones and the lower-cased names; each named key's bucket is its old bucket with the entry added; other buckets are unchanged |
| Registry.RegisteredAt | liquibase-core/src/main/java/liquibase/datatype/DataTypeFactory.java:48-73 | the same, key by key, for the name and aliases of one descriptor |
| Registry.RegisterKeepsWellFormed | liquibase-core/src/main/java/liquibase/datatype/DataTypeFactory.java:55-69 | registering keeps every key lower case and every bucket non-empty and strictly descending |
| Registry.RegisterAddsNames | liquibase-core/src/main/java/liquibase/datatype/DataTypeFactory.java:51-68 | afterwards the keys are the old keys plus the lower-cased name and aliases, and each of those buckets holds an entry of the descriptor's priority |
| Registry.RegisterFrame | liquibase-core/src/main/java/liquibase/datatype/DataTypeFactory.java:55-69 | a key that is none of the descriptor's names is present afterwards exactly when before, with the same bucket |
| Registry.RegisterTieKeepsBucket | liquibase-core/src/main/java/liquibase/datatype/DataTypeFactory.java:58-68 | in a bucket that already holds the descriptor's priority, registering changes nothing: the first registered wins |
| Registry.RegisterNewPriority | liquibase-core/src/main/java/liquibase/datatype/DataTypeFactory.java:57-68 | in a bucket without that priority, or with no bucket at all, registering adds the descriptor exactly once |
| Registry.RegisterIdempotent | liquibase-core/src/main/java/liquibase/datatype/DataTypeFactory.java:48-73 | registering the same descriptor twice gives the registry that registering it once gives |
| Registry.RegisterAll | liquibase-core/src/main/java/liquibase/datatype/DataTypeFactory.java:20-34 | the constructor's registration of each implementation in turn; RegisterAllBucket, HasPriorityKept and HighestPriorityHeads state its effect |
| Registry.RegisterAllBucket | liquibase-core/src/main/java/liquibase/datatype/DataTypeFactory.java:20-34 | registering a sequence keeps the registry well formed; each bucket holds only old entries and descriptors carrying its key; each such descriptor's priority is present |
| Registry.HasPriorityKept | liquibase-core/src/main/java/liquibase/datatype/DataTypeFactory.java:25-28 | a priority present in a bucket survives any further registrations |
| Registry.HighestPriorityHeads | liquibase-core/src/main/java/liquibase/datatype/DataTypeFactory.java:58-66 | the descriptor with strictly the highest priority among those carrying a key heads that key's bucket, whatever the registration order |
| Description.CutFrom | liquibase-core/src/main/java/liquibase/datatype/DataTypeFactory.java:86-89 | `replaceFirst("\\s*c.*", "")` as a scan for the leftmost position where `\s*c` matches; its closed form is CutAtFirst |
| Description.TypeName | liquibase-core/src/main/java/liquibase/datatype/DataTypeFactory.java:84-90 | the name as the code computes it, cut at `\s*(` and then, if a `{` is left, the description cut at `\s*{`; what it comes to is TypeNameBeforeBracket |
| Description.CutFromNoMatch | liquibase-core/src/main/java/liquibase/datatype/DataTypeFactory.java:86 | with no bracket the replacement leaves the text unchanged |
| Description.CutFromBefore | liquibase-core/src/main/java/liquibase/datatype/DataTypeFactory.java:86 | the replacement cuts the text at the start of the `\s` run before the first bracket |
| Description.CutAtFirst | liquibase-core/src/main/java/liquibase/datatype/DataTypeFactory.java:86-89 | the replacement is the text before the first bracket, without its trailing `\s` run, or the whole text when there is no bracket |
| Description.TypeNameBeforeBracket | liquibase-core/src/main/java/liquibase/datatype/DataTypeFactory.java:84-90 | the two-step extraction gives the text before the first `(` or `{`, whichever comes first, without the `\s` run before it; without a bracket, the whole text |
| Description.NameBeforeSpaces | liquibase-core/src/main/java/liquibase/datatype/DataTypeFactory.java:84-90 | when only `\s` lies between position k and the first bracket, and no `\s` just before k, the name is the first k characters |
| Description.ParamsGuard | liquibase-core/src/main/java/liquibase/datatype/DataTypeFactory.java:110 | `matches("\\w+\\s*\\(.*")`: a word-character run, a `\s` run, then `(`; ParamsGuardIff gives it in terms of the name |
| Description.ParamsGuardName | liquibase-core/src/main/java/liquibase/datatype/DataTypeFactory.java:110 | when the parameter pattern matches, the first bracket is the `(` after the word and its `\s` run, and the name is that word |
| Description.WordNameGivesParams | liquibase-core/src/main/java/liquibase/datatype/DataTypeFactory.java:110 | a word-character name followed by `(` matches the parameter pattern |
| Description.ParamsGuardIff | liquibase-core/src/main/java/liquibase/datatype/DataTypeFactory.java:110 | the parameter pattern matches exactly when the name is non-empty, all word characters, and the first bracket is `(` |
| Description.Enclosed | liquibase-core/src/main/java/liquibase/datatype/DataTypeFactory.java:111 | the parameter text (and, with `{` and `}`, the property text of line 122) is the text right after the first opening bracket, running to the next closing bracket or the end; it holds no closing bracket |
| Description.ParamText | liquibase-core/src/main/java/liquibase/datatype/DataTypeFactory.java:111 | the text between the first `(` and the next `)` or the end (Enclosed) |
| Description.Params | liquibase-core/src/main/java/liquibase/datatype/DataTypeFactory.java:111-118 | the parameter text split on `,`, each piece trimmed, blank pieces dropped, order kept |
| Description.PropText | liquibase-core/src/main/java/liquibase/datatype/DataTypeFactory.java:122 | the text between the first `{` and the next `}` or the end (Enclosed) |
| Description.PropPieces | liquibase-core/src/main/java/liquibase/datatype/DataTypeFactory.java:122-123 | the property text split on `,` as Java splits it |
| Description.WordThenParams | liquibase-core/src/main/java/liquibase/datatype/DataTypeFactory.java:110-111 | for `word(body)`: the name is the word, the pattern matches, and the parameter text is the body |
| Description.WordThenProps | liquibase-core/src/main/java/liquibase/datatype/DataTypeFactory.java:121-122 | for `word{body}`: the name is the word, no parameters are read, and the property text is the body |
| Description.WordThenBrace | liquibase-core/src/main/java/liquibase/datatype/DataTypeFactory.java:110 | a word directly followed by `{` does not match the parameter pattern |
| Description.WordThenBraceName | liquibase-core/src/main/java/liquibase/datatype/DataTypeFactory.java:84-90 | a word directly followed by `{` is the name |
| Description.SplitKeyValue | liquibase-core/src/main/java/liquibase/datatype/DataTypeFactory.java:127 | the key holds no colon; the value is absent exactly when the token holds no colon, and then the key is the whole token |
| Description.SplitKeyValueJoin | liquibase-core/src/main/java/liquibase/datatype/DataTypeFactory.java:127 | with a colon, the token is key, colon, value |
| Description.SplitKeyValueOf | liquibase-core/src/main/java/liquibase/datatype/DataTypeFactory.java:127 | key, colon, value splits back into that key and that value, whatever colons the value holds |
| Resolver.Lookup | liquibase-core/src/main/java/liquibase/datatype/DataTypeFactory.java:92-104 | known exactly when the lower-cased name has a bucket; the known descriptor is in that bucket with a priority above every other entry; otherwise the fallback carries the name as written |
| Resolver.ApplyProps | liquibase-core/src/main/java/liquibase/datatype/DataTypeFactory.java:121-135 | setting properties keeps the kind and the parameters, and a failure names the resolved class |
| Resolver.FirstRejected | liquibase-core/src/main/java/liquibase/datatype/DataTypeFactory.java:124-132 | every piece before the index is accepted, and the piece at the index, if any, is not |
| Resolver.ApplyPropsOutcome | liquibase-core/src/main/java/liquibase/datatype/DataTypeFactory.java:121-135 | the call fails exactly when some piece is rejected, and the error names the key of the first rejected piece |
| Resolver.ApplyPropsSucceeds | liquibase-core/src/main/java/liquibase/datatype/DataTypeFactory.java:121-135 | the call succeeds exactly when every piece is accepted |
| Resolver.ApplyPropsBlanks | liquibase-core/src/main/java/liquibase/datatype/DataTypeFactory.java:124-125 | blank pieces alone leave the instance as it is |
| Resolver.ApplyPropsBlankTail | liquibase-core/src/main/java/liquibase/datatype/DataTypeFactory.java:123-134 | blank pieces after the last token change nothing, so `word{k:v,}` and `word{k:v, }` resolve as `word{k:v}` |
| Resolver.ApplyPropsDropTrailing | liquibase-core/src/main/java/liquibase/datatype/DataTypeFactory.java:123-134 | the trailing empty pieces that Java's `split` drops make no difference to the outcome |
| Resolver.ApplyPropsUnnamed | liquibase-core/src/main/java/liquibase/datatype/DataTypeFactory.java:124-134 | after success, a property that no piece names keeps its presence and value |
| Resolver.ApplyPropsLast | liquibase-core/src/main/java/liquibase/datatype/DataTypeFactory.java:124-134 | after success, a property holds the value of the last piece that names it |
| Resolver.LastIsFirst | liquibase-core/src/main/java/liquibase/datatype/DataTypeFactory.java:124-134 | the same when that piece is the first one |
| Resolver.Resolve | liquibase-core/src/main/java/liquibase/datatype/DataTypeFactory.java:83-139 | `fromDescription` as a function: lookup of the name, then parameters under the pattern, then properties when there is a `{`; ResolveShape, ResolveFails and the Resolve lemmas state what it gives |
| Resolver.ResolveShape | liquibase-core/src/main/java/liquibase/datatype/DataTypeFactory.java:83-137 | a resolution's kind is the lookup of the extracted name; its parameters are read only under the parameter pattern; only a description with `{` can fail, and the error names the resolved class; without `{` there are no properties |
| Resolver.ResolveFails | liquibase-core/src/main/java/liquibase/datatype/DataTypeFactory.java:121-135 | resolution fails exactly when the description has `{` and a property piece the resolved kind rejects |
| Resolver.ResolveIgnoresCase | liquibase-core/src/main/java/liquibase/datatype/DataTypeFactory.java:92 | two names equal after lower-casing, with a bucket, look up the same head of bucket |
| Resolver.ResolveAfterUnregister | liquibase-core/src/main/java/liquibase/datatype/DataTypeFactory.java:75-96 | after removing the name's key the registry stays well formed, and the name resolves to the fallback carrying it as written, whatever the bucket held |
| Resolver.ResolveBare | liquibase-core/src/main/java/liquibase/datatype/DataTypeFactory.java:84-96 | a description without brackets is its own name, untrimmed, with no parameters and no properties |
| Resolver.ResolveWordWithParams | liquibase-core/src/main/java/liquibase/datatype/DataTypeFactory.java:110-119 | `word(p1,...,pn)` resolves to the lookup of the word, with the non-blank pieces trimmed and in order, and no properties |
| Resolver.ResolveWordWithProps | liquibase-core/src/main/java/liquibase/datatype/DataTypeFactory.java:121-135 | `word{t1,...,tn}` resolves to the tokens applied in order to the lookup of the word, with no parameters; empty tokens are allowed, so `word{}` and a trailing comma are covered |
| Factory.DataTypeFactory.constructor | liquibase-core/src/main/java/liquibase/datatype/DataTypeFactory.java:20-34 | the new registry is the given implementations registered in order into an empty one, and is well formed |
| Factory.DataTypeFactory.Register | liquibase-core/src/main/java/liquibase/datatype/DataTypeFactory.java:48-73 | the new registry is the old one with the descriptor registered under its name and aliases; it stays well formed |
| Factory.DataTypeFactory.Unregister | liquibase-core/src/main/java/liquibase/datatype/DataTypeFactory.java:75-77 | the new registry is the old one without the lower-cased name's key, and unchanged when that key is absent; it stays well formed |
| Factory.DataTypeFactory.FromDescription | liquibase-core/src/main/java/liquibase/datatype/DataTypeFactory.java:83-139 | the result of the step-by-step resolution is the resolution of the description against the current registry |
| Factory.AddParameters | liquibase-core/src/main/java/liquibase/datatype/DataTypeFactory.java:110-119 | the parameter loop appends the non-blank pieces, trimmed and in order, and changes nothing else |
| Factory.SetProperties | liquibase-core/src/main/java/liquibase/datatype/DataTypeFactory.java:121-135 | the property loop's outcome is the property application of the tokens |
| Scenarios.ParamsAnyCase | liquibase-core/src/main/java/liquibase/datatype/DataTypeFactory.java:92-119 | two spellings of a registered name differing only in case resolve identically, to the head of the bucket with the same parameters |
| Scenarios.VarcharSpellings | liquibase-core/src/main/java/liquibase/datatype/DataTypeFactory.java:92 | `VARCHAR` and `varchar` both lower-case to `varchar` |
| Scenarios.TwoParams | liquibase-core/src/main/java/liquibase/datatype/DataTypeFactory.java:110-119 | `word(a,b)` with clean pieces gets the parameters `[a, b]` in that order |
| Scenarios.PaddedParams | liquibase-core/src/main/java/liquibase/datatype/DataTypeFactory.java:110-119 | `word(a, b)` with blanks around `b` gets the parameters `[a, b]`, trimmed |
| Scenarios.PaddedPieces | liquibase-core/src/main/java/liquibase/datatype/DataTypeFactory.java:113-118 | the pieces `a` and blanks-`b`-blanks filter to `[a, b]` |
| Scenarios.EmptyBrackets | liquibase-core/src/main/java/liquibase/datatype/DataTypeFactory.java:110-119 | `word()` gets no parameter |
| Scenarios.TwoWordName | liquibase-core/src/main/java/liquibase/datatype/DataTypeFactory.java:84-119 | `w1 w2(body)` resolves under the two-word name with no parameters |
| Scenarios.TwoWordNoParams | liquibase-core/src/main/java/liquibase/datatype/DataTypeFactory.java:110 | a word, a space and a non-bracket character do not match the parameter pattern |
| Scenarios.TwoWordTypeName | liquibase-core/src/main/java/liquibase/datatype/DataTypeFactory.java:84-90 | the name of `w1 w2(body)` is `w1 w2` |
| Scenarios.UnregisteredKeepsCase | liquibase-core/src/main/java/liquibase/datatype/DataTypeFactory.java:92-96 | an unregistered bracket-free name resolves to the fallback with the name as written |
| Scenarios.ParamsAfterUnregister | liquibase-core/src/main/java/liquibase/datatype/DataTypeFactory.java:75-119 | after removing the word's key, `word(...)` resolves to the fallback named as written, with its parameters |
| Scenarios.PropsStep | liquibase-core/src/main/java/liquibase/datatype/DataTypeFactory.java:124-131 | a clean `key:value` token with a settable key sets that key to that value and goes on |
| Scenarios.TwoProps | liquibase-core/src/main/java/liquibase/datatype/DataTypeFactory.java:121-135 | `word{k1:v1,k2:v2}` with settable keys gets exactly those two properties, set in order |
| Scenarios.TwoSettable | liquibase-core/src/main/java/liquibase/datatype/DataTypeFactory.java:124-134 | two clean `key:value` tokens with settable keys, applied to an instance without properties, set exactly those two keys to their values |
| Scenarios.TwoTokens | liquibase-core/src/main/java/liquibase/datatype/DataTypeFactory.java:121-123 | `word{t1,t2}` applies the tokens `t1` then `t2` |
| Scenarios.OneToken | liquibase-core/src/main/java/liquibase/datatype/DataTypeFactory.java:121-123 | `word{t}` applies the single token `t` |
| Scenarios.UnknownPropertyFails | liquibase-core/src/main/java/liquibase/datatype/DataTypeFactory.java:127-131 | `word{k:v}` with a key the class does not accept fails, naming the key and the class |
| Scenarios.MissingValueFails | liquibase-core/src/main/java/liquibase/datatype/DataTypeFactory.java:127-131 | `word{k}` without a colon fails, naming `k` and the class, even when `k` is settable |

## Left out

- Discovery of the implementation classes through `ServiceLocator` in the
  constructor. The constructor takes the descriptors as a parameter, and
  the wrapping of discovery failures is not modelled.
- The static singleton: `getInstance`, which is `synchronized`, and
  `reset`. This is shared static state and concurrency.
- Reflection. `newInstance` is used in `register`, in the comparator and
  at lookup. A `Descriptor` value carries what those instances would
  report: class name, type name, aliases, priority and accepted
  properties. Instantiation failures are not modelled.
- `ObjectUtil.setProperty` is a reflective setter whose source is not part
  of this model. It is abstracted as membership of the key in the
  descriptor's set of accepted property names. Value conversion, and
  failures of a settable property on a bad value, are not modelled. The
  fallback kind accepts no property.
- `fromObject` only feeds a runtime class name back into `fromDescription`.
  The two `from(...)` overloads are `return null` stubs.
- `getTrueBooleanValue` and `getFalseBooleanValue` depend on the
  dialect-specific `objectToString` and a `Database`, which are outside
  this model.
- Thread-safety of the `ConcurrentHashMap`, and the read-then-put race in
  `register`: concurrency.
- `getRegistry` hands out the live map, so callers can alias it. The model
  exposes only the `registry` field.
- The second null check in `fromDescription`. Both branches before it
  always produce an instance, so it never fires.
- `StringUtils.trimToNull` is not part of this model. It is taken to be
  `String.trim` followed by "empty becomes absent".
- Text.Lower: lower-cases ASCII letters only. Java's `toLowerCase` is
  locale-sensitive and covers all of Unicode.
- Factory.DataTypeFactory.FromDescription: requires a description without
  line terminators. The regular expressions use `.`, which does not match
  them. With a line terminator present, the Java matches and replacements
  behave differently, and that case is not modelled. The same holds for
  `Resolver.Resolve`, `Description.TypeName`, `Description.ParamsGuard` and
  the lemmas about them: they describe the model, which agrees with the
  Java expressions only on descriptions without line terminators.
- The example descriptions (`decimal(10,2)` and the others) are proved for
  every description of their shape rather than as literal strings. An
  instance of each shape is the literal example.
