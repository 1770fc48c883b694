/**
 * SelfFilterInvocationSecurityMetadataSource: for each request, the set of
 * role attributes the request needs, read afresh from the stored menu URL
 * patterns. The Ant path matcher is a parameter, `matches(pattern, path)`,
 * so that nothing is assumed about its glob rules.
 */
module MetadataSource {
  import opened Wrappers
  import opened Repository

  /**
   * Spring Security's SecurityConfig: one role name as a configuration
   * attribute. Two are equal when their names are, so a HashSet of them
   * holds each role once.
   */
  datatype ConfigAttribute = SecurityConfig(attribute: string)

  /** The attribute that asks only for an authenticated user. */
  const ROLE_LOGIN: string := "ROLE_LOGIN"

  /** The roles of the patterns in urls that match requestUrl, the pattern tested first. */
  function MatchedRoles(
    urls: seq<string>, roleOf: string -> string,
    matches: (string, string) -> bool, requestUrl: string): set<ConfigAttribute>
  {
    set u | u in urls && matches(u, requestUrl) :: SecurityConfig(roleOf(u))
  }

  /** The attributes getAttributes returns: the matched roles, or ROLE_LOGIN when there are none. */
  function RequiredAttributes(
    urls: seq<string>, roleOf: string -> string,
    matches: (string, string) -> bool, requestUrl: string): set<ConfigAttribute>
  {
    var matched := MatchedRoles(urls, roleOf, matches, requestUrl);
    if matched == {} then {SecurityConfig(ROLE_LOGIN)} else matched
  }

  /** Scanning one more pattern adds its role exactly when it matches. */
  lemma MatchedRolesSnoc(
    urls: seq<string>, u: string, roleOf: string -> string,
    matches: (string, string) -> bool, requestUrl: string)
    ensures MatchedRoles(urls + [u], roleOf, matches, requestUrl)
         == MatchedRoles(urls, roleOf, matches, requestUrl)
          + (if matches(u, requestUrl) then {SecurityConfig(roleOf(u))} else {})
  {
    var before := MatchedRoles(urls, roleOf, matches, requestUrl);
    var after := MatchedRoles(urls + [u], roleOf, matches, requestUrl);
    var added: set<ConfigAttribute> := if matches(u, requestUrl) then {SecurityConfig(roleOf(u))} else {};
    forall c | c in after ensures c in before + added {
      var w :| w in urls + [u] && matches(w, requestUrl) && c == SecurityConfig(roleOf(w));
      if w != u {
        assert w in urls;
      }
    }
    forall c | c in before + added ensures c in after {
      if c in before {
        var w :| w in urls && matches(w, requestUrl) && c == SecurityConfig(roleOf(w));
        assert w in urls + [u];
      } else {
        assert u in urls + [u];
      }
    }
  }

  /**
   * getAttributes: scan every stored menu URL, collect the role of each
   * pattern that matches the request URL, and fall back to ROLE_LOGIN.
   */
  method GetAttributes(q: Queries, matches: (string, string) -> bool, requestUrl: string)
    returns (attributes: set<ConfigAttribute>)
    ensures attributes == RequiredAttributes(q.findAllMenuUrl, q.findRoleNameByMenuUrl, matches, requestUrl)
  {
    var found: set<ConfigAttribute> := {};
    var menuUrl := q.findAllMenuUrl;
    for i := 0 to |menuUrl|
      invariant found == MatchedRoles(menuUrl[..i], q.findRoleNameByMenuUrl, matches, requestUrl)
    {
      var url := menuUrl[i];
      MatchedRolesSnoc(menuUrl[..i], url, q.findRoleNameByMenuUrl, matches, requestUrl);
      assert menuUrl[..i + 1] == menuUrl[..i] + [url];
      if matches(url, requestUrl) {
        var roleName := q.findRoleNameByMenuUrl(url);
        found := found + {SecurityConfig(roleName)};
      }
    }
    assert menuUrl[..|menuUrl|] == menuUrl;
    if found == {} {
      return {SecurityConfig(ROLE_LOGIN)};
    }
    return found;
  }

  /** getAllConfigAttributes: no attribute collection is offered (Java returns null). */
  function GetAllConfigAttributes(): (r: Option<set<ConfigAttribute>>)
    ensures r.None?
  {
    None
  }

  /** Every stored pattern that matches contributes its role. */
  lemma MatchContributes(
    urls: seq<string>, roleOf: string -> string,
    matches: (string, string) -> bool, requestUrl: string, i: int)
    requires 0 <= i < |urls| && matches(urls[i], requestUrl)
    ensures SecurityConfig(roleOf(urls[i])) in RequiredAttributes(urls, roleOf, matches, requestUrl)
    ensures SecurityConfig(roleOf(urls[i])) in MatchedRoles(urls, roleOf, matches, requestUrl)
  {
    assert urls[i] in urls;
  }

  /** The fallback fires exactly when no stored pattern matches, the empty list included. */
  lemma FallbackIffNoMatch(
    urls: seq<string>, roleOf: string -> string,
    matches: (string, string) -> bool, requestUrl: string)
    ensures MatchedRoles(urls, roleOf, matches, requestUrl) == {}
        <==> forall i :: 0 <= i < |urls| ==> !matches(urls[i], requestUrl)
    ensures (forall i :: 0 <= i < |urls| ==> !matches(urls[i], requestUrl))
        ==> RequiredAttributes(urls, roleOf, matches, requestUrl) == {SecurityConfig(ROLE_LOGIN)}
  {
    if exists i :: 0 <= i < |urls| && matches(urls[i], requestUrl) {
      var i :| 0 <= i < |urls| && matches(urls[i], requestUrl);
      MatchContributes(urls, roleOf, matches, requestUrl, i);
    }
  }

  /**
   * When some pattern matches, the result is exactly the roles of the
   * matching patterns: every element comes from one of them.
   */
  lemma OnlyMatchedRoles(
    urls: seq<string>, roleOf: string -> string,
    matches: (string, string) -> bool, requestUrl: string)
    requires exists i :: 0 <= i < |urls| && matches(urls[i], requestUrl)
    ensures forall c ::
              c in RequiredAttributes(urls, roleOf, matches, requestUrl) <==>
              exists i :: 0 <= i < |urls| && matches(urls[i], requestUrl) && c == SecurityConfig(roleOf(urls[i]))
  {
    FallbackIffNoMatch(urls, roleOf, matches, requestUrl);
    var result := RequiredAttributes(urls, roleOf, matches, requestUrl);
    forall c ensures c in result
        <==> exists i :: 0 <= i < |urls| && matches(urls[i], requestUrl) && c == SecurityConfig(roleOf(urls[i]))
    {
      if c in result {
        var w :| w in urls && matches(w, requestUrl) && c == SecurityConfig(roleOf(w));
        var i :| 0 <= i < |urls| && urls[i] == w;
      }
      if exists i :: 0 <= i < |urls| && matches(urls[i], requestUrl) && c == SecurityConfig(roleOf(urls[i])) {
        var i :| 0 <= i < |urls| && matches(urls[i], requestUrl) && c == SecurityConfig(roleOf(urls[i]));
        MatchContributes(urls, roleOf, matches, requestUrl, i);
      }
    }
  }

  /** The result is never empty. */
  lemma NeverEmpty(
    urls: seq<string>, roleOf: string -> string,
    matches: (string, string) -> bool, requestUrl: string)
    ensures RequiredAttributes(urls, roleOf, matches, requestUrl) != {}
  {
  }

  /** The number of stored patterns that match requestUrl. */
  function MatchCount(urls: seq<string>, matches: (string, string) -> bool, requestUrl: string): nat
    decreases |urls|
  {
    if urls == [] then 0
    else
      var last := if matches(urls[|urls| - 1], requestUrl) then 1 else 0;
      MatchCount(urls[..|urls| - 1], matches, requestUrl) + last
  }

  /** The set holds at most one attribute per matching pattern; equal roles collapse. */
  lemma {:induction false} MatchedRolesBound(
    urls: seq<string>, roleOf: string -> string,
    matches: (string, string) -> bool, requestUrl: string)
    ensures |MatchedRoles(urls, roleOf, matches, requestUrl)| <= MatchCount(urls, matches, requestUrl)
    decreases |urls|
  {
    if urls == [] {
      assert MatchedRoles(urls, roleOf, matches, requestUrl) == {};
    } else {
      var init := urls[..|urls| - 1];
      var u := urls[|urls| - 1];
      MatchedRolesBound(init, roleOf, matches, requestUrl);
      MatchedRolesSnoc(init, u, roleOf, matches, requestUrl);
      assert init + [u] == urls;
    }
  }

  /** Two matching patterns that need the same role yield that role once. */
  lemma SameRoleOnce(
    u1: string, u2: string, roleOf: string -> string,
    matches: (string, string) -> bool, requestUrl: string)
    requires matches(u1, requestUrl) && matches(u2, requestUrl)
    requires roleOf(u1) == roleOf(u2)
    ensures RequiredAttributes([u1, u2], roleOf, matches, requestUrl) == {SecurityConfig(roleOf(u1))}
  {
    MatchContributes([u1, u2], roleOf, matches, requestUrl, 0);
    var result := MatchedRoles([u1, u2], roleOf, matches, requestUrl);
    forall c | c in result ensures c == SecurityConfig(roleOf(u1)) {
      var w :| w in [u1, u2] && matches(w, requestUrl) && c == SecurityConfig(roleOf(w));
    }
  }

  /** A further matching pattern whose role is already collected changes nothing. */
  lemma CollectedRoleAgain(
    urls: seq<string>, u: string, roleOf: string -> string,
    matches: (string, string) -> bool, requestUrl: string)
    requires matches(u, requestUrl)
    requires SecurityConfig(roleOf(u)) in MatchedRoles(urls, roleOf, matches, requestUrl)
    ensures MatchedRoles(urls + [u], roleOf, matches, requestUrl) == MatchedRoles(urls, roleOf, matches, requestUrl)
    ensures RequiredAttributes(urls + [u], roleOf, matches, requestUrl)
         == RequiredAttributes(urls, roleOf, matches, requestUrl)
  {
    MatchedRolesSnoc(urls, u, roleOf, matches, requestUrl);
  }

  /**
   * The order of the stored URL list does not matter: two lists with the
   * same elements, however ordered or repeated, give the same attributes.
   */
  lemma OrderIndependent(
    urls1: seq<string>, urls2: seq<string>, roleOf: string -> string,
    matches: (string, string) -> bool, requestUrl: string)
    requires forall u :: u in urls1 <==> u in urls2
    ensures RequiredAttributes(urls1, roleOf, matches, requestUrl)
         == RequiredAttributes(urls2, roleOf, matches, requestUrl)
  {
    assert MatchedRoles(urls1, roleOf, matches, requestUrl) == MatchedRoles(urls2, roleOf, matches, requestUrl);
  }
}
