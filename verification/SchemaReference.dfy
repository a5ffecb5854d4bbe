/**
 * Local `$ref` resolution (`resolve_local_schema_reference`): JSON Pointer tokens, the chain of
 * references, and the `seen` set that stops cyclic chains.
 */
module SchemaReference {
  import opened Options
  import opened Json

  const ANNOTATION_KEYWORDS: set<string> :=
    {"$id", "$schema", "$comment", "title", "description", "default", "examples", "deprecated",
     "readOnly", "writeOnly"}

  // ---------------------------------------------------------------- pointer text

  /** The parts between the separators, as Python splits a text. */
  function Split(text: string, sep: char): (parts: seq<string>)
    ensures |parts| > 0
  {
    if text == "" then [""]
    else if text[0] == sep then [""] + Split(text[1..], sep)
    else
      var rest := Split(text[1..], sep);
      [[text[0]] + rest[0]] + rest[1..]
  }

  /** The parts with separators between them. */
  function Join(parts: seq<string>, sep: char): string
    requires |parts| > 0
  {
    if |parts| == 1 then parts[0] else parts[0] + [sep] + Join(parts[1..], sep)
  }

  /** Every occurrence of the two characters, from the left, becomes the replacement. */
  function ReplacePair(text: string, first: char, second: char, replacement: char): string
  {
    if |text| < 2 then text
    else if text[0] == first && text[1] == second then [replacement] + ReplacePair(text[2..], first, second, replacement)
    else [text[0]] + ReplacePair(text[1..], first, second, replacement)
  }

  /** The search for `~` that is not followed by `0` or `1`. */
  predicate HasInvalidEscape(token: string)
  {
    exists i :: 0 <= i < |token| && token[i] == '~' && (i + 1 == |token| || token[i + 1] !in {'0', '1'})
  }

  function Unescape(token: string): string
  {
    ReplacePair(ReplacePair(token, '~', '1', '/'), '~', '0', '~')
  }

  /** The writing direction of sections 3 and 4 of RFC 6901; the tooling only reads pointers. */
  function Escape(key: string): string
  {
    if key == "" then ""
    else (if key[0] == '~' then "~0" else if key[0] == '/' then "~1" else [key[0]]) + Escape(key[1..])
  }

  function EscapeAll(path: seq<string>): (tokens: seq<string>)
    ensures |tokens| == |path|
  {
    if path == [] then [] else [Escape(path[0])] + EscapeAll(path[1..])
  }

  /** The reference that names the value at `path`, below the root. */
  function PointerTo(path: seq<string>): string
    requires |path| > 0
  {
    "#/" + Join(EscapeAll(path), '/')
  }

  // ---------------------------------------------------------------- walking the document

  /** The inner loop: one object member per token. */
  function Walk(current: Value, tokens: seq<string>): Option<Value>
  {
    if tokens == [] then Some(current)
    else if HasInvalidEscape(tokens[0]) then None
    else
      var token := Unescape(tokens[0]);
      if !current.Obj? || token !in current.members then None
      else Walk(current.members[token], tokens[1..])
  }

  /** The value reached from `current` by plain object keys. */
  function AtPath(current: Value, path: seq<string>): Option<Value>
  {
    if path == [] then Some(current)
    else if !current.Obj? || path[0] !in current.members then None
    else AtPath(current.members[path[0]], path[1..])
  }

  predicate HasRef(current: Value)
  {
    current.Obj? && "$ref" in current.members
  }

  predicate OnlyAnnotationsBeside(current: Value)
    requires current.Obj?
  {
    forall keyword | keyword in current.members :: keyword in ANNOTATION_KEYWORDS || keyword == "$ref"
  }

  /** Where one reference text leads. */
  function Target(reference: string, root: Value): Option<Value>
  {
    if reference == "#" then Some(root)
    else if !("#/" <= reference) then None
    else Walk(root, Split(reference[2..], '/'))
  }

  /** One link of the chain, without the cycle check. */
  function Follow(current: Value, root: Value): Option<Value>
    requires HasRef(current)
  {
    var reference := current.members["$ref"];
    if !reference.Str? || !OnlyAnnotationsBeside(current) then None else Target(reference.s, root)
  }

  lemma {:induction false} WalkStaysInside(current: Value, tokens: seq<string>)
    requires Walk(current, tokens).Some?
    ensures Strings(Walk(current, tokens).value) <= Strings(current)
  {
    if tokens != [] {
      WalkStaysInside(current.members[Unescape(tokens[0])], tokens[1..]);
    }
  }

  /** The chain with its `seen` set, as a function of the current value. */
  function ResolveFrom(current: Value, root: Value, seen: set<string>, ghost universe: set<string>): Option<Value>
    requires Strings(root) <= universe && Strings(current) <= universe
    decreases universe - seen
  {
    if !HasRef(current) then Some(current)
    else
      var reference := current.members["$ref"];
      if !reference.Str? || reference.s in seen then None
      else
        match Follow(current, root)
        case None => None
        case Some(next) =>
          assert reference.s in Strings(reference);
          assert Strings(next) <= universe by {
            if reference.s != "#" { WalkStaysInside(root, Split(reference.s[2..], '/')); }
          }
          ResolveFrom(next, root, seen + {reference.s}, universe)
  }

  function Resolve(value: Value, root: Value): Option<Value>
  {
    ResolveFrom(value, root, {}, Strings(value) + Strings(root))
  }

  /** The loop: `current` and `seen` are updated until no reference is left. */
  method ResolveLocalSchemaReference(value: Value, root: Value) returns (resolved: bool, current: Value)
    ensures (if resolved then Some(current) else None) == Resolve(value, root)
    ensures !resolved ==> current == Null
  {
    ghost var universe := Strings(value) + Strings(root);
    current := value;
    var seen: set<string> := {};
    while HasRef(current)
      invariant Strings(current) <= universe
      invariant ResolveFrom(current, root, seen, universe) == Resolve(value, root)
      decreases universe - seen
    {
      var reference := current.members["$ref"];
      if !reference.Str? || reference.s in seen || !OnlyAnnotationsBeside(current) {
        return false, Null;
      }
      assert reference.s in Strings(reference);
      seen := seen + {reference.s};
      if reference.s == "#" {
        current := root;
        continue;
      }
      if !("#/" <= reference.s) {
        return false, Null;
      }
      var tokens := Split(reference.s[2..], '/');
      ghost var before := seen - {reference.s};
      current := root;
      for i := 0 to |tokens|
        invariant Strings(current) <= universe
        invariant Walk(root, tokens) == Walk(current, tokens[i..])
      {
        if HasInvalidEscape(tokens[i]) {
          return false, Null;
        }
        var token := Unescape(tokens[i]);
        if !current.Obj? || token !in current.members {
          return false, Null;
        }
        current := current.members[token];
      }
    }
    resolved := true;
  }

  // ---------------------------------------------------------------- the seen set is exact

  /** `current` reaches `target`, a value without `$ref`, after exactly `n` references. */
  predicate ReachesIn(current: Value, root: Value, n: nat, target: Value)
    decreases n
  {
    if n == 0 then current == target && !HasRef(current)
    else HasRef(current) && Follow(current, root).Some? && ReachesIn(Follow(current, root).value, root, n - 1, target)
  }

  /** The chain of references from `value` ends, in `target`. */
  ghost predicate Reaches(value: Value, root: Value, target: Value)
  {
    exists n: nat :: ReachesIn(value, root, n, target)
  }

  lemma {:induction false} ChainLengthUnique(current: Value, root: Value, n: nat, target: Value, n': nat,
          target': Value)
    requires ReachesIn(current, root, n, target) && ReachesIn(current, root, n', target')
    ensures n == n' && target == target'
    decreases n
  {
    if n > 0 && n' > 0 {
      ChainLengthUnique(Follow(current, root).value, root, n - 1, target, n' - 1, target');
    }
  }

  /** `from` carries a reference text and leads to `to`. */
  ghost predicate Link(from: Value, to: Value, root: Value)
  {
    HasRef(from) && from.members["$ref"].Str? && Follow(from, root) == Some(to)
  }

  /** `path` lists the values the loop went through, ending in the current one. */
  ghost predicate Trail(path: seq<Value>, root: Value, seen: set<string>)
  {
    && |path| > 0
    && (forall i | 0 <= i < |path| - 1 :: Link(path[i], path[i + 1], root))
    && forall s | s in seen :: exists i :: 0 <= i < |path| - 1 && path[i].Obj? && "$ref" in path[i].members && path[i].members["$ref"] == Str(s)
  }

  lemma {:induction false} TrailReaches(path: seq<Value>, k: nat, root: Value, seen: set<string>, n: nat, target: Value)
    requires Trail(path, root, seen) && k < |path| && ReachesIn(path[|path| - 1], root, n, target)
    ensures ReachesIn(path[k], root, n + (|path| - 1 - k), target)
    decreases |path| - k
  {
    if k + 1 < |path| {
      TrailReaches(path, k + 1, root, seen, n, target);
      assert Link(path[k], path[k + 1], root);
    }
  }

  lemma {:induction false} ResolveFromExact(path: seq<Value>, root: Value, seen: set<string>,
                                            universe: set<string>, n: nat, target: Value)
    requires Trail(path, root, seen)
    requires Strings(root) <= universe && Strings(path[|path| - 1]) <= universe
    requires ReachesIn(path[|path| - 1], root, n, target)
    ensures ResolveFrom(path[|path| - 1], root, seen, universe) == Some(target)
    decreases n
  {
    if n > 0 {
      var last := |path| - 1;
      var current := path[last];
      var next := Follow(current, root).value;
      var reference := current.members["$ref"].s;
      if reference in seen {
        // The same reference was followed before, so the chain re-enters itself and cannot end.
        var i :| 0 <= i < last && path[i].Obj? && "$ref" in path[i].members && path[i].members["$ref"] == Str(reference);
        assert Link(path[i], path[i + 1], root);
        TrailReaches(path, i + 1, root, seen, n, target);
        ChainLengthUnique(next, root, n - 1, target, n + (last - i - 1), target);
        assert false;
      }
      ExtendTrail(path, next, root, seen, reference);
      if reference != "#" { WalkStaysInside(root, Split(reference[2..], '/')); }
      ResolveFromExact(path + [next], root, seen + {reference}, universe, n - 1, target);
    }
  }

  lemma ExtendTrail(path: seq<Value>, next: Value, root: Value, seen: set<string>, reference: string)
    requires Trail(path, root, seen) && Link(path[|path| - 1], next, root)
    requires path[|path| - 1].members["$ref"] == Str(reference)
    ensures Trail(path + [next], root, seen + {reference})
  {
    var path', last := path + [next], |path| - 1;
    forall i | 0 <= i < |path'| - 1 ensures Link(path'[i], path'[i + 1], root)
    {
      if i < last { assert Link(path[i], path[i + 1], root); }
    }
    forall s | s in seen + {reference}
      ensures exists i :: 0 <= i < |path'| - 1 && path'[i].Obj? && "$ref" in path'[i].members && path'[i].members["$ref"] == Str(s)
    {
      if s == reference {
        assert path'[last] == path[last];
      } else {
        var i :| 0 <= i < last && path[i].Obj? && "$ref" in path[i].members && path[i].members["$ref"] == Str(s);
        assert path'[i] == path[i];
      }
    }
  }

  lemma {:induction false} ResolveFromReaches(current: Value, root: Value, seen: set<string>, universe: set<string>)
    returns (n: nat)
    requires Strings(root) <= universe && Strings(current) <= universe
    requires ResolveFrom(current, root, seen, universe).Some?
    ensures ReachesIn(current, root, n, ResolveFrom(current, root, seen, universe).value)
    decreases universe - seen
  {
    n := 0;
    if HasRef(current) {
      var reference := current.members["$ref"];
      assert reference.s in Strings(reference);
      var next := Follow(current, root).value;
      if reference.s != "#" { WalkStaysInside(root, Split(reference.s[2..], '/')); }
      var m := ResolveFromReaches(next, root, seen + {reference.s}, universe);
      n := m + 1;
    }
  }

  /**
   * Resolution succeeds exactly on the chains that end, with the value they end in: the `seen`
   * set rejects every chain that never ends and no other.
   */
  lemma ResolveExact(value: Value, root: Value, target: Value)
    ensures Resolve(value, root) == Some(target) <==> Reaches(value, root, target)
    ensures Resolve(value, root) == Some(target) ==> !HasRef(target)
  {
    var universe := Strings(value) + Strings(root);
    if Resolve(value, root) == Some(target) {
      var n := ResolveFromReaches(value, root, {}, universe);
      ReachedHasNoRef(value, root, n, target);
    }
    if Reaches(value, root, target) {
      var n: nat :| ReachesIn(value, root, n, target);
      var path := [value];
      assert path[|path| - 1] == value;
      ResolveFromExact(path, root, {}, universe, n, target);
    }
  }

  lemma {:induction false} ReachedHasNoRef(value: Value, root: Value, n: nat, target: Value)
    requires ReachesIn(value, root, n, target)
    ensures !HasRef(target)
    decreases n
  {
    if n > 0 { ReachedHasNoRef(Follow(value, root).value, root, n - 1, target); }
  }

  // ---------------------------------------------------------------- pointers reach what they name

  /** `Escape` with `~1` already read back: what the first `replace` leaves. */
  function HalfEscape(key: string): string
  {
    if key == "" then "" else (if key[0] == '~' then "~0" else [key[0]]) + HalfEscape(key[1..])
  }

  lemma {:induction false} EscapeShape(key: string)
    ensures forall i :: 0 <= i < |Escape(key)| ==> Escape(key)[i] != '/'
    ensures !HasInvalidEscape(Escape(key))
  {
    if key != "" {
      var head := if key[0] == '~' then "~0" else if key[0] == '/' then "~1" else [key[0]];
      var tail := Escape(key[1..]);
      EscapeShape(key[1..]);
      assert Escape(key) == head + tail;
      forall i | 0 <= i < |head + tail| && (head + tail)[i] == '~'
        ensures i + 1 < |head + tail| && (head + tail)[i + 1] in {'0', '1'}
      {
        if i >= |head| {
          assert tail[i - |head|] == '~';
        }
      }
    }
  }

  lemma {:induction false} FirstReplace(key: string)
    ensures ReplacePair(Escape(key), '~', '1', '/') == HalfEscape(key)
  {
    if key != "" {
      FirstReplace(key[1..]);
      var tail := Escape(key[1..]);
      if key[0] == '~' {
        assert Escape(key) == "~0" + tail;
        assert Escape(key)[1..] == "0" + tail;
        assert (("0" + tail)[1..]) == tail;
      } else if key[0] == '/' {
        assert Escape(key) == "~1" + tail;
        assert Escape(key)[2..] == tail;
      } else {
        assert Escape(key)[1..] == tail;
        if |Escape(key)| < 2 { assert tail == ""; }
      }
    }
  }

  lemma {:induction false} SecondReplace(key: string)
    ensures ReplacePair(HalfEscape(key), '~', '0', '~') == key
  {
    if key != "" {
      SecondReplace(key[1..]);
      var tail := HalfEscape(key[1..]);
      if key[0] == '~' {
        assert HalfEscape(key) == "~0" + tail;
        assert HalfEscape(key)[2..] == tail;
      } else {
        assert HalfEscape(key)[1..] == tail;
        if |HalfEscape(key)| < 2 { assert tail == ""; }
      }
    }
  }

  lemma {:induction false} SplitOfPlain(token: string, sep: char)
    requires forall i :: 0 <= i < |token| ==> token[i] != sep
    ensures Split(token, sep) == [token]
  {
    if token != "" {
      SplitOfPlain(token[1..], sep);
      assert [token[0]] + token[1..] == token;
    }
  }

  lemma {:induction false} SplitCons(token: string, rest: string, sep: char)
    requires forall i :: 0 <= i < |token| ==> token[i] != sep
    ensures Split(token + [sep] + rest, sep) == [token] + Split(rest, sep)
  {
    if token == "" {
      assert (token + [sep] + rest)[1..] == rest;
    } else {
      SplitCons(token[1..], rest, sep);
      assert (token + [sep] + rest)[1..] == token[1..] + [sep] + rest;
      assert [token[0]] + token[1..] == token;
    }
  }

  lemma {:induction false} SplitOfJoin(tokens: seq<string>, sep: char)
    requires |tokens| > 0
    requires forall t, i :: t in tokens && 0 <= i < |t| ==> t[i] != sep
    ensures Split(Join(tokens, sep), sep) == tokens
  {
    if |tokens| == 1 {
      SplitOfPlain(tokens[0], sep);
    } else {
      SplitCons(tokens[0], Join(tokens[1..], sep), sep);
      SplitOfJoin(tokens[1..], sep);
    }
  }

  lemma {:induction false} EscapedTokensHaveNoSlash(path: seq<string>)
    ensures forall t, i :: t in EscapeAll(path) && 0 <= i < |t| ==> t[i] != '/'
  {
    if path != [] {
      EscapedTokensHaveNoSlash(path[1..]);
      EscapeShape(path[0]);
    }
  }

  lemma {:induction false} WalkEscaped(current: Value, path: seq<string>)
    ensures Walk(current, EscapeAll(path)) == AtPath(current, path)
  {
    if path != [] {
      EscapeShape(path[0]);
      FirstReplace(path[0]);
      SecondReplace(path[0]);
      assert EscapeAll(path)[1..] == EscapeAll(path[1..]);
      if current.Obj? && path[0] in current.members {
        WalkEscaped(current.members[path[0]], path[1..]);
      }
    }
  }

  /**
   * For every nonempty path of object keys, a reference written by RFC 6901's escaping resolves
   * to exactly what the value at that path resolves to, whatever that is.
   */
  lemma PointerReachesPath(path: seq<string>, root: Value)
    requires |path| > 0
    ensures Target(PointerTo(path), root) == AtPath(root, path)
    ensures Resolve(Obj(map["$ref" := Str(PointerTo(path))]), root) ==
            match AtPath(root, path) case None => None case Some(v) => Resolve(v, root)
  {
    EscapedTokensHaveNoSlash(path);
    SplitOfJoin(EscapeAll(path), '/');
    WalkEscaped(root, path);
    assert PointerTo(path)[2..] == Join(EscapeAll(path), '/');
    var start := Obj(map["$ref" := Str(PointerTo(path))]);
    assert Follow(start, root) == AtPath(root, path);
    match AtPath(root, path) {
      case None =>
      case Some(v) =>
        OneMoreReference(start, v, root);
    }
  }

  /** Taking one reference more or less does not change where a chain ends. */
  lemma OneMoreReference(start: Value, next: Value, root: Value)
    requires HasRef(start) && Follow(start, root) == Some(next)
    ensures Resolve(start, root) == Resolve(next, root)
  {
    if Resolve(start, root).Some? {
      var target := Resolve(start, root).value;
      ResolveExact(start, root, target);
      var n: nat :| ReachesIn(start, root, n, target);
      assert ReachesIn(next, root, n - 1, target);
      ResolveExact(next, root, target);
    }
    if Resolve(next, root).Some? {
      var target := Resolve(next, root).value;
      ResolveExact(next, root, target);
      var n: nat :| ReachesIn(next, root, n, target);
      assert ReachesIn(start, root, n + 1, target);
      ResolveExact(start, root, target);
    }
  }
}
