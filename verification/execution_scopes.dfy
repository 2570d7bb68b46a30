/** Execution scopes: the root case or a named region, the keys they are stored under, and the
    scope a native invocation is bound to. */
module ExecutionScopes {
  import opened Wrappers

  datatype Scope = Root | Region(name: string)

  /** A native tool with its arguments. */
  datatype Command = Command(name: string, arguments: seq<string>)

  datatype ScopeError =
    | CombinedSelectors
    | RepeatedRegion
    | MissingName
    | UnsafeName(name: string)
    | UnknownKey(key: string)
    | Undeclared(scope: Scope)

  /** The region a scope stands for; the root case is the region without a name. */
  function Name(s: Scope): string {
    if s.Root? then "" else s.name
  }

  function Key(s: Scope): string {
    match s
    case Root => "root"
    case Region(name) => "region:" + name
  }

  function FromKey(key: string, nameOk: string -> bool): Result<Scope, ScopeError> {
    if key == "root" then Ok(Root)
    else if "region:" <= key then
      (if nameOk(key[7..]) then Ok(Region(key[7..])) else Err(UnsafeName(key[7..])))
    else Err(UnknownKey(key))
  }

  lemma KeysDistinct(a: Scope, b: Scope)
    ensures Key(a) == Key(b) ==> a == b
  {
    assert "root"[1] == 'o' && "region:"[1] == 'e';
    if a.Region? && b.Region? && Key(a) == Key(b) {
      assert a.name == Key(a)[7..] && b.name == Key(b)[7..];
    }
  }

  /** Reading a key back gives the scope it was made from, exactly when the name is allowed,
      and no other text reads as that scope. */
  lemma KeyRoundTrip(s: Scope, key: string, nameOk: string -> bool)
    ensures FromKey(key, nameOk) == Ok(s) <==> (key == Key(s) && (s.Root? || nameOk(s.name)))
  {
    assert "root"[1] == 'o' && "region:"[1] == 'e';
    if s.Region? {
      assert ("region:" + s.name)[7..] == s.name;
    }
    if "region:" <= key {
      assert key == "region:" + key[7..];
    }
  }

  function First(s: seq<string>, x: string): (i: nat)
    requires x in s
    ensures i < |s| && s[i] == x
  {
    if s[0] == x then 0 else 1 + First(s[1..], x)
  }

  lemma {:induction false} NoneBeforeFirst(s: seq<string>, x: string)
    requires x in s
    ensures x !in s[..First(s, x)]
  {
    if s[0] != x {
      NoneBeforeFirst(s[1..], x);
      assert s[..First(s, x)] == [s[0]] + s[1..][..First(s[1..], x)];
    }
  }

  /** The region an invocation selects, if it selects one. */
  function CommandRegion(arguments: seq<string>, nameOk: string -> bool): Result<Option<string>, ScopeError> {
    if "-region" !in arguments then Ok(None)
    else
      var i := First(arguments, "-region");
      if "-allRegions" in arguments then Err(CombinedSelectors)
      else if "-region" in arguments[i + 1..] then Err(RepeatedRegion)
      else if i + 1 >= |arguments| then Err(MissingName)
      else if nameOk(arguments[i + 1]) then Ok(Some(arguments[i + 1]))
      else Err(UnsafeName(arguments[i + 1]))
  }

  ghost predicate FollowsSelector(arguments: seq<string>, name: string) {
    exists i :: 0 <= i < |arguments| - 1 && arguments[i] == "-region" && arguments[i + 1] == name
  }

  /** An invocation selects a region exactly when it has one selector, not combined with all
      regions, and an allowed name follows it. */
  lemma RegionSelected(arguments: seq<string>, nameOk: string -> bool, name: string)
    ensures CommandRegion(arguments, nameOk) == Ok(Some(name)) <==>
      (nameOk(name) && "-allRegions" !in arguments && multiset(arguments)["-region"] == 1 &&
       FollowsSelector(arguments, name))
  {
    if "-region" in arguments {
      var i := First(arguments, "-region");
      var rest := arguments[i + 1..];
      NoneBeforeFirst(arguments, "-region");
      assert arguments == arguments[..i] + ["-region"] + rest;
      assert multiset(arguments)["-region"] == 1 + multiset(rest)["-region"];
      assert "-region" !in rest ==> forall j :: 0 <= j < |arguments| && arguments[j] == "-region" ==> j == i;
    }
  }

  function Selected(region: Option<string>): Scope {
    match region
    case None => Root
    case Some(name) => Region(name)
  }

  /** The one declared scope an invocation is bound to. */
  function BoundScope(scopes: seq<Scope>, arguments: seq<string>, nameOk: string -> bool): Result<Scope, ScopeError> {
    match CommandRegion(arguments, nameOk)
    case Err(e) => Err(e)
    case Ok(region) =>
      if multiset(scopes)[Selected(region)] == 1 then Ok(Selected(region)) else Err(Undeclared(Selected(region)))
  }

  /** An invocation is bound to the region it selects, or without a selector to the root, when
      that is declared exactly once. */
  lemma BoundScopeExact(scopes: seq<Scope>, arguments: seq<string>, nameOk: string -> bool, s: Scope)
    ensures BoundScope(scopes, arguments, nameOk) == Ok(s) <==>
      multiset(scopes)[s] == 1 &&
      match s
      case Root => "-region" !in arguments
      case Region(name) => CommandRegion(arguments, nameOk) == Ok(Some(name))
  {}
}
