// Authentication through Red Hat SSO: the OIDC claims a user must carry, how a user is found and created from
// them, and the permission class that admits users holding one of a view's roles. The OIDC library's own checks
// and user creation, and the profiles table, are parameters.

module Authentication {
  import opened Wrappers
  import opened Text

  /** OIDC claims, by name. */
  type Claims = map<string, string>

  /** `verify_claims`: the library's own check must pass and the claims must carry a Red Hat UUID. */
  predicate VerifyClaims(baseVerified: bool, claims: Claims)
  {
    baseVerified && "rhatUUID" in claims
  }

  /** `filter_users_by_claims`: the one user whose profile has the claimed UUID, or none. */
  function FilterUsersByClaims<User>(claims: Claims, userByUuid: map<string, User>): (users: seq<User>)
    ensures |users| <= 1
    ensures users != [] <==> "rhatUUID" in claims && claims["rhatUUID"] != "" && claims["rhatUUID"] in userByUuid
    ensures users != [] ==> users[0] == userByUuid[claims["rhatUUID"]]
  {
    var uuid := if "rhatUUID" in claims then claims["rhatUUID"] else "";
    if uuid == "" then []
    else if uuid in userByUuid then [userByUuid[uuid]]
    else []
  }

  /** A Red Hat profile: the user's UUID, raw roles ("groups") and full name ("cn"), keyed to the user. */
  datatype Profile<User> = Profile(rhatUuid: string, rhatRoles: string, fullName: string, user: User)

  function ClaimOr(claims: Claims, name: string, default: string): string
  {
    if name in claims then claims[name] else default
  }

  /**
   * `create_user`: claims without a Red Hat UUID fail authentication; otherwise the user the library created
   * gets a profile holding the UUID, the groups and the full name, those two "" when not claimed.
   */
  function CreateUser<User>(claims: Claims, created: User): (r: Result<Profile<User>>)
    ensures r.Err? <==> "rhatUUID" !in claims
    ensures r.Err? ==> r.error == AuthenticationFailed("User claims do not include rhatUUID")
    ensures r.Ok? ==> r.value.rhatUuid == claims["rhatUUID"] && r.value.user == created
    ensures r.Ok? ==> r.value.rhatRoles == ClaimOr(claims, "groups", "") && r.value.fullName == ClaimOr(claims, "cn", "")
  {
    if "rhatUUID" !in claims then Err(AuthenticationFailed("User claims do not include rhatUUID"))
    else Ok(Profile(claims["rhatUUID"], ClaimOr(claims, "groups", ""), ClaimOr(claims, "cn", ""), created))
  }

  /** `update_user`: the profile takes the claimed UUID, groups and full name; a missing UUID raises KeyError. */
  function UpdateUser<User>(claims: Claims, p: Profile<User>): (r: Result<Profile<User>>)
    ensures r.Err? <==> "rhatUUID" !in claims
    ensures r.Err? ==> r.error == KeyError("rhatUUID")
    ensures r.Ok? ==> r.value.user == p.user && r.value.rhatUuid == claims["rhatUUID"]
    ensures r.Ok? ==> r.value.rhatRoles == ClaimOr(claims, "groups", "") && r.value.fullName == ClaimOr(claims, "cn", "")
  {
    if "rhatUUID" !in claims then Err(KeyError("rhatUUID"))
    else Ok(p.(rhatUuid := claims["rhatUUID"], rhatRoles := ClaimOr(claims, "groups", ""),
               fullName := ClaimOr(claims, "cn", "")))
  }

  /** An update leaves the profile `create_user` would have made for the same user from the same claims. */
  lemma UpdateAsCreate<User>(claims: Claims, p: Profile<User>)
    requires "rhatUUID" in claims
    ensures UpdateUser(claims, p) == CreateUser(claims, p.user)
  {
  }

  /** Claims that pass verification always create a user, and the new user is then found by the same claims. */
  lemma VerifiedClaimsCreateFindableUser<User>(baseVerified: bool, claims: Claims, created: User,
                                               userByUuid: map<string, User>)
    requires VerifyClaims(baseVerified, claims) && claims["rhatUUID"] != ""
    ensures CreateUser(claims, created).Ok?
    ensures FilterUsersByClaims(claims, userByUuid[claims["rhatUUID"] := created]) == [created]
  {
  }

  /**
   * `verify_claims` admits exactly the claims the library admits that `create_user` can turn into a user:
   * claims refused for want of a UUID could neither create a user nor find one.
   */
  lemma VerifyClaimsGuards<User>(baseVerified: bool, claims: Claims, created: User, userByUuid: map<string, User>)
    ensures VerifyClaims(baseVerified, claims) <==> baseVerified && CreateUser(claims, created).Ok?
    ensures !VerifyClaims(true, claims) ==>
      CreateUser(claims, created).Err? && FilterUsersByClaims(claims, userByUuid) == []
  {
  }

  /** Updating a profile with the claims that created it changes nothing. */
  lemma UpdateAfterCreate<User>(claims: Claims, created: User)
    requires "rhatUUID" in claims
    ensures UpdateUser(claims, CreateUser(claims, created).value) == CreateUser(claims, created)
  {
  }

  const Brackets: set<char> := {'[', ']'}

  /** The roles of a profile: its raw roles with surrounding brackets stripped, split at ", ". */
  function Roles(rawRoles: string): (roles: seq<string>)
    ensures |roles| >= 1
  {
    Split(Strip(rawRoles, Brackets), ", ")
  }

  /**
   * `has_permission`: a view without permitted roles is a programming error (ValueError); a user without a
   * profile is denied; otherwise access is granted exactly when one of the user's roles is permitted.
   */
  function HasPermission(rolesPermitted: Option<set<string>>, rawRoles: Option<string>): (r: Result<bool>)
    ensures r.Err? <==> rolesPermitted.None?
    ensures rolesPermitted.Some? && rawRoles.None? ==> r == Ok(false)
    ensures rolesPermitted.Some? && rawRoles.Some? ==>
              r.Ok? && (r.value <==> exists i :: 0 <= i < |Roles(rawRoles.value)| &&
                                                 Roles(rawRoles.value)[i] in rolesPermitted.value)
  {
    if rolesPermitted.None? then Err(ValueError("View doesn't define any permitted roles"))
    else if rawRoles.None? then Ok(false)
    else
      var roles := Roles(rawRoles.value);
      var granted := (set i | 0 <= i < |roles| :: roles[i]) * rolesPermitted.value != {};
      assert granted ==> exists i :: 0 <= i < |roles| && roles[i] in rolesPermitted.value;
      assert (exists i :: 0 <= i < |roles| && roles[i] in rolesPermitted.value) ==> granted by {
        if exists i :: 0 <= i < |roles| && roles[i] in rolesPermitted.value {
          var i :| 0 <= i < |roles| && roles[i] in rolesPermitted.value;
          assert roles[i] in (set i | 0 <= i < |roles| :: roles[i]) * rolesPermitted.value;
        }
      }
      Ok(granted)
  }

  /** Stripping brackets from a bracketed text with no bracket at either end of its own gives the text back. */
  lemma StripBrackets(x: string)
    requires Free(x, '[') && Free(x, ']')
    ensures Strip("[" + x + "]", Brackets) == x
  {
    var s := "[" + x + "]";
    assert s[0] in Brackets;
    assert s[1..] == x + "]";
    assert LStrip(s, Brackets) == LStrip(x + "]", Brackets);
    if x == [] {
      assert LStrip("]", Brackets) == LStrip("", Brackets) == "";
      assert RStrip("", Brackets) == "";
    } else {
      assert (x + "]")[0] == x[0] && x[0] !in Brackets;
      assert LStrip(x + "]", Brackets) == x + "]";
      assert (x + "]")[|x|] in Brackets;
      assert (x + "]")[..|x + "]"| - 1] == x;
      assert RStrip(x + "]", Brackets) == RStrip(x, Brackets);
      assert x[|x| - 1] !in Brackets;
    }
  }

  /**
   * Roles stored as a bracketed ", "-separated list, as the SSO groups claim holds them, read back as that
   * list when no role holds a comma or a bracket.
   */
  lemma {:induction false} RolesOfGroupList(roles: seq<string>)
    requires |roles| >= 1
    requires forall k :: 0 <= k < |roles| ==> Free(roles[k], ',') && Free(roles[k], '[') && Free(roles[k], ']')
    ensures Roles("[" + Join(roles, ", ") + "]") == roles
  {
    JoinFree(roles, ", ", '[');
    JoinFree(roles, ", ", ']');
    StripBrackets(Join(roles, ", "));
    SplitJoinFree(roles, ", ");
  }

  /** A user whose groups claim lists a permitted role is admitted, and one whose roles are all unlisted is not. */
  lemma GroupListPermission(roles: seq<string>, permitted: set<string>)
    requires |roles| >= 1
    requires forall k :: 0 <= k < |roles| ==> Free(roles[k], ',') && Free(roles[k], '[') && Free(roles[k], ']')
    ensures HasPermission(Some(permitted), Some("[" + Join(roles, ", ") + "]")) ==
            Ok(exists k :: 0 <= k < |roles| && roles[k] in permitted)
  {
    RolesOfGroupList(roles);
  }

  /** A profile without roles holds the single empty role, so it is admitted only where "" is a permitted role. */
  lemma NoRoles(permitted: set<string>)
    ensures HasPermission(Some(permitted), Some("")) == Ok("" in permitted)
  {
    assert Strip("", Brackets) == "";
    assert IndexOf("", ", ") == None;
    assert Roles("") == [""];
    if "" in permitted {
      assert Roles("")[0] in permitted;
    } else {
      assert forall i :: 0 <= i < |Roles("")| ==> Roles("")[i] == "";
    }
  }
}
