/**
  The classification of a matched user's groups into authorizations and
  roles. Three independent passes over the same group list:
  plain authorizations (group names), SAP authorizations (synthesised from
  `/SAP_ACCESS_2/<access>/<program>` paths) and roles (`ROLE_` names).
 */
module GroupClassifier {
  import opened Results
  import opened JavaString
  import opened Directory

  const SapPrefix: string := "/SAP_ACCESS_2/"
  const RolePrefix: string := "ROLE_"

  predicate UnderSap(g: Group) {
    StartsWith(g.path, SapPrefix)
  }

  predicate IsRoleName(name: string) {
    StartsWith(name, RolePrefix)
  }

  /** A group whose name becomes an authorization as it is. */
  predicate IsPlain(g: Group) {
    !UnderSap(g) && !IsRoleName(g.name)
  }

  // ---------------------------------------------------------------------------
  // Plain authorizations
  // ---------------------------------------------------------------------------

  /** The names of the groups outside `/SAP_ACCESS_2/` that are not roles, in group order. */
  function PlainAuths(groups: seq<Group>): (auths: seq<string>)
    ensures |auths| <= |groups|
    ensures forall a :: a in auths ==> !IsRoleName(a)
    ensures forall a :: a in auths <==> exists g :: g in groups && IsPlain(g) && g.name == a
  {
    if |groups| == 0 then []
    else
      var rest := PlainAuths(groups[1..]);
      assert forall g :: g in groups[1..] ==> g in groups;
      assert forall g :: g in groups ==> g == groups[0] || g in groups[1..];
      if IsPlain(groups[0]) then [groups[0].name] + rest else rest
  }

  /** Plain authorizations keep group order: they distribute over concatenation. */
  lemma {:induction false} PlainAuthsAppend(xs: seq<Group>, ys: seq<Group>)
    ensures PlainAuths(xs + ys) == PlainAuths(xs) + PlainAuths(ys)
  {
    if |xs| > 0 {
      assert (xs + ys)[0] == xs[0];
      assert (xs + ys)[1..] == xs[1..] + ys;
      PlainAuthsAppend(xs[1..], ys);
    } else {
      assert xs + ys == ys;
    }
  }

  // ---------------------------------------------------------------------------
  // SAP authorizations
  // ---------------------------------------------------------------------------

  /** The paths of the groups under `/SAP_ACCESS_2/`, in group order. */
  function SapPaths(groups: seq<Group>): (paths: seq<string>)
    ensures |paths| <= |groups|
    ensures forall p :: p in paths ==> StartsWith(p, SapPrefix)
    ensures forall p :: p in paths <==> exists g :: g in groups && UnderSap(g) && g.path == p
  {
    if |groups| == 0 then []
    else
      var rest := SapPaths(groups[1..]);
      assert forall g :: g in groups[1..] ==> g in groups;
      assert forall g :: g in groups ==> g == groups[0] || g in groups[1..];
      if UnderSap(groups[0]) then [groups[0].path] + rest else rest
  }

  lemma {:induction false} SapPathsAppend(xs: seq<Group>, ys: seq<Group>)
    ensures SapPaths(xs + ys) == SapPaths(xs) + SapPaths(ys)
  {
    if |xs| > 0 {
      assert (xs + ys)[0] == xs[0];
      assert (xs + ys)[1..] == xs[1..] + ys;
      SapPathsAppend(xs[1..], ys);
    } else {
      assert xs + ys == ys;
    }
  }

  /**
    `program + "_" + access` from elements 3 and 2 of `path.split("/")`;
    indexing a split with fewer than four elements throws. In terms of the
    raw pieces between slashes: the split keeps four elements exactly when
    some piece from index 3 on is non-empty, and later pieces are ignored.
   */
  function SapAuth(path: string): (r: Result<string, LookupError>)
    ensures r.Ok? <==> exists i :: 3 <= i < |Pieces(path, '/')| && Pieces(path, '/')[i] != ""
    ensures r.Ok? ==> r.value == Pieces(path, '/')[3] + "_" + Pieces(path, '/')[2]
    ensures r.Err? ==> r.error == MalformedGroupPath(path)
  {
    SplitLength(path, '/', 4);
    var segments := Split(path, '/');
    if |segments| < 4 then Err(MalformedGroupPath(path))
    else Ok(segments[3] + "_" + segments[2])
  }

  const SapRoot: string := "SAP_ACCESS_2"

  /** Pieces of `/<root>/<access>/<body>` for slash-free root and access. */
  lemma PiecesUnderRoot(root: string, access: string, body: string)
    requires '/' !in root && '/' !in access
    ensures Pieces("/" + root + "/" + access + "/" + body, '/') == ["", root, access] + Pieces(body, '/')
  {
    var inner := access + ['/'] + body;
    var mid := root + ['/'] + inner;
    assert "/" + root + "/" + access + "/" + body == "" + ['/'] + mid;
    PiecesAcrossSeparator("", '/', mid);
    PiecesAcrossSeparator(root, '/', inner);
    PiecesAcrossSeparator(access, '/', body);
    PiecesOfPlain(root, '/');
    PiecesOfPlain(access, '/');
  }

  /** Pieces of `/<root>/<x>` for slash-free root and x. */
  lemma PiecesOfShortPath(root: string, x: string)
    requires '/' !in root && '/' !in x
    ensures Pieces("/" + root + "/" + x, '/') == ["", root, x]
  {
    assert "/" + root + "/" + x == "" + ['/'] + (root + ['/'] + x);
    PiecesAcrossSeparator("", '/', root + ['/'] + x);
    PiecesAcrossSeparator(root, '/', x);
    PiecesOfPlain(root, '/');
    PiecesOfPlain(x, '/');
  }

  lemma SapPrefixShape()
    ensures SapPrefix == "/" + SapRoot + "/"
    ensures '/' !in SapRoot
  {
  }

  /** Pieces of `<prefix><access>/<program><tail>` for a prefix of the form `/<root>/`. */
  lemma PiecesOfWellFormed(root: string, access: string, program: string, tail: string)
    requires '/' !in root && '/' !in access && '/' !in program
    requires tail == "" || tail[0] == '/'
    ensures var p := Pieces("/" + root + "/" + access + "/" + (program + tail), '/');
      |p| >= 4 && p[2] == access && p[3] == program
  {
    PiecesUnderRoot(root, access, program + tail);
    FirstPiece(program, tail);
  }

  /** A slash-free text followed by nothing or by a slash is the first piece. */
  lemma FirstPiece(program: string, tail: string)
    requires '/' !in program
    requires tail == "" || tail[0] == '/'
    ensures Pieces(program + tail, '/')[0] == program
  {
    PiecesOfPlain(program, '/');
    if tail == "" {
      assert program + tail == program;
    } else {
      assert program + tail == program + ['/'] + tail[1..];
      PiecesAcrossSeparator(program, '/', tail[1..]);
    }
  }

  /** `/SAP_ACCESS_2/<access>/<program>[/...]` yields `<program>_<access>`. */
  lemma SapAuthOfWellFormed(access: string, program: string, tail: string)
    requires '/' !in access && '/' !in program && program != ""
    requires tail == "" || tail[0] == '/'
    ensures SapAuth(SapPrefix + access + "/" + (program + tail)) == Ok(program + "_" + access)
  {
    var path := SapPrefix + access + "/" + (program + tail);
    SapPrefixShape();
    PiecesOfWellFormed(SapRoot, access, program, tail);
    assert path[..|SapPrefix|] == SapPrefix;
  }

  /** `/SAP_ACCESS_2/<x>` and `/SAP_ACCESS_2/<x>/` are malformed. */
  lemma SapAuthTooShort(x: string)
    requires '/' !in x
    ensures SapAuth(SapPrefix + x) == Err(MalformedGroupPath(SapPrefix + x))
    ensures SapAuth(SapPrefix + x + "/") == Err(MalformedGroupPath(SapPrefix + x + "/"))
  {
    SapPrefixShape();
    var p1 := SapPrefix + x;
    assert p1 == "/" + SapRoot + "/" + x;
    PiecesOfShortPath(SapRoot, x);
    assert p1[..|SapPrefix|] == SapPrefix;

    var p2 := SapPrefix + x + "/";
    assert p2 == "/" + SapRoot + "/" + x + "/" + "";
    PiecesUnderRoot(SapRoot, x, "");
    assert p2[..|SapPrefix|] == SapPrefix;
  }

  /**
    The loop over the SAP paths: one authorization per path, in path order;
    the first malformed path aborts the loop with its error.
   */
  function SapAuths(paths: seq<string>): (r: Result<seq<string>, LookupError>)
    ensures r.Ok? <==> forall i :: 0 <= i < |paths| ==> SapAuth(paths[i]).Ok?
    ensures r.Ok? ==>
      (|r.value| == |paths| &&
       forall i :: 0 <= i < |paths| ==> SapAuth(paths[i]) == Ok(r.value[i]))
    ensures r.Err? ==>
      exists i :: (0 <= i < |paths| && SapAuth(paths[i]) == Err(r.error) &&
                   forall j :: 0 <= j < i ==> SapAuth(paths[j]).Ok?)
  {
    if |paths| == 0 then Ok([])
    else
      var auth :- SapAuth(paths[0]);
      var rest :- SapAuths(paths[1..]);
      assert forall i :: 1 <= i < |paths| ==> paths[i] == paths[1..][i - 1];
      Ok([auth] + rest)
  }

  // ---------------------------------------------------------------------------
  // Roles
  // ---------------------------------------------------------------------------

  /** `name.replace("ROLE_", "")`: every occurrence is removed, not only the prefix. */
  function RoleOf(name: string): (role: string)
    ensures |role| <= |name| - |RolePrefix| || !IsRoleName(name)
  {
    assert IsRoleName(name) ==> OccursAt(name, RolePrefix, 0);
    ReplaceByEmptyShrinks(name, RolePrefix);
    Replace(name, RolePrefix, "")
  }

  /** A name that is the prefix followed by text free of `ROLE_` yields that text. */
  lemma RoleOfPrefixed(x: string)
    requires forall j :: !OccursAt(x, RolePrefix, j)
    ensures RoleOf(RolePrefix + x) == x
  {
    var name := RolePrefix + x;
    assert name[..|RolePrefix|] == RolePrefix && name[|RolePrefix|..] == x;
    ReplaceAbsent(x, RolePrefix, "");
  }

  /**
    Removal is a single pass, so it can assemble a new `ROLE_` prefix out of
    the text around an inner occurrence: a role need not be prefix-free.
   */
  lemma RoleCanKeepPrefix(x: string)
    requires forall j :: !OccursAt(x, RolePrefix, j)
    ensures RoleOf(RolePrefix + ("ROL" + (RolePrefix + ("E_" + x)))) == RolePrefix + x
  {
    var w := "E_" + x;
    var z := RolePrefix + w;
    ReplaceLeading(RolePrefix, "ROL" + z, "");
    NoMarkerInRol(z);
    ReplaceSkipsPrefix("ROL", z, RolePrefix, "");
    ReplaceLeading(RolePrefix, w, "");
    NoMarkerAfterE(x);
    ReplaceAbsent(w, RolePrefix, "");
    assert "ROL" + ("E_" + ("" + x)) == "ROLE_" + x;
  }

  /** No `ROLE_` starts inside a leading `ROL` that is followed by `ROLE_`. */
  lemma NoMarkerInRol(z: string)
    requires StartsWith(z, RolePrefix)
    ensures forall j :: 0 <= j < 3 ==> !OccursAt("ROL" + z, RolePrefix, j)
  {
    var y := "ROL" + z;
    forall j | 0 <= j < 3 ensures !OccursAt(y, RolePrefix, j) {
      assert y[j] != 'R' || y[j + 3] != 'E';
    }
  }

  /** `E_<x>` holds no `ROLE_` when `x` holds none. */
  lemma NoMarkerAfterE(x: string)
    requires forall j :: !OccursAt(x, RolePrefix, j)
    ensures forall j :: !OccursAt("E_" + x, RolePrefix, j)
  {
    var w := "E_" + x;
    forall j ensures !OccursAt(w, RolePrefix, j) {
      if 0 <= j < 2 && j + |RolePrefix| <= |w| {
        assert w[j..j + |RolePrefix|][0] == w[j] != RolePrefix[0];
      } else if 2 <= j && j + |RolePrefix| <= |w| {
        assert w[j..j + |RolePrefix|] == x[j - 2..j - 2 + |RolePrefix|];
        assert !OccursAt(x, RolePrefix, j - 2);
      }
    }
  }

  /** One role per group named `ROLE_...`, whatever its path, in group order. */
  function Roles(groups: seq<Group>): (roles: seq<string>)
    ensures |roles| <= |groups|
    ensures forall x :: x in roles <==> exists g :: g in groups && IsRoleName(g.name) && x == RoleOf(g.name)
  {
    if |groups| == 0 then []
    else
      var rest := Roles(groups[1..]);
      assert forall g :: g in groups[1..] ==> g in groups;
      assert forall g :: g in groups ==> g == groups[0] || g in groups[1..];
      if IsRoleName(groups[0].name) then [RoleOf(groups[0].name)] + rest else rest
  }

  lemma {:induction false} RolesAppend(xs: seq<Group>, ys: seq<Group>)
    ensures Roles(xs + ys) == Roles(xs) + Roles(ys)
  {
    if |xs| > 0 {
      assert (xs + ys)[0] == xs[0];
      assert (xs + ys)[1..] == xs[1..] + ys;
      RolesAppend(xs[1..], ys);
    } else {
      assert xs + ys == ys;
    }
  }

  // ---------------------------------------------------------------------------
  // The whole classification
  // ---------------------------------------------------------------------------

  /** The two ordered lists handed to the user record. */
  datatype Classification = Classification(auths: seq<string>, roles: seq<string>)

  /**
    Plain authorizations first, then one SAP authorization per SAP path;
    roles from every `ROLE_` name. Any malformed SAP path aborts.
   */
  function Classify(groups: seq<Group>): (r: Result<Classification, LookupError>)
    ensures r.Ok? <==> forall p :: p in SapPaths(groups) ==> SapAuth(p).Ok?
    ensures r.Err? ==> r.error.MalformedGroupPath? && r.error.path in SapPaths(groups)
    ensures r.Err? ==>
      exists i :: (0 <= i < |SapPaths(groups)| && SapAuth(SapPaths(groups)[i]) == Err(r.error) &&
                   forall j :: 0 <= j < i ==> SapAuth(SapPaths(groups)[j]).Ok?)
    ensures r.Ok? ==>
      |r.value.auths| == |PlainAuths(groups)| + |SapPaths(groups)| &&
      r.value.auths[..|PlainAuths(groups)|] == PlainAuths(groups) &&
      (forall i :: 0 <= i < |SapPaths(groups)| ==>
         SapAuth(SapPaths(groups)[i]) == Ok(r.value.auths[|PlainAuths(groups)| + i])) &&
      r.value.roles == Roles(groups)
  {
    var plain := PlainAuths(groups);
    var sap :- SapAuths(SapPaths(groups));
    assert (plain + sap)[..|plain|] == plain;
    Ok(Classification(plain + sap, Roles(groups)))
  }

  /**
    A group under `/SAP_ACCESS_2/` whose name is `ROLE_X` contributes both an
    SAP authorization and the role `X`, but never its raw name.
   */
  lemma SapRoleGroup(access: string, program: string, x: string)
    requires '/' !in access && '/' !in program && program != ""
    requires forall j :: !OccursAt(x, RolePrefix, j)
    ensures Classify([Group(SapPrefix + access + "/" + program, RolePrefix + x)]) ==
      Ok(Classification([program + "_" + access], [x]))
  {
    var path := SapPrefix + access + "/" + program;
    var g := Group(path, RolePrefix + x);
    var groups := [g];
    var auth := program + "_" + access;
    assert program + "" == program;
    SapAuthOfWellFormed(access, program, "");
    assert SapAuth(path) == Ok(auth);
    assert path[..|SapPrefix|] == SapPrefix;
    assert (RolePrefix + x)[..|RolePrefix|] == RolePrefix;
    assert |groups[1..]| == 0;
    assert PlainAuths(groups) == [];
    assert SapPaths(groups) == [path];
    var paths := [path];
    assert paths[0] == path;
    var sap := SapAuths(paths);
    assert sap.Ok? && |sap.value| == 1 && sap.value[0] == auth;
    assert sap.value == [auth];
    RoleOfPrefixed(x);
    assert Roles(groups) == [x];
  }

  /** The loop over a single path yields that path's authorization. */
  lemma SapAuthsSingle(path: string, auth: string)
    requires SapAuth(path) == Ok(auth)
    ensures SapAuths([path]) == Ok([auth])
  {
    var paths := [path];
    assert paths[0] == path;
    var sap := SapAuths(paths);
    assert sap.Ok? && |sap.value| == 1 && sap.value[0] == auth;
    assert sap.value == [auth];
  }

  /**
    A mixed membership: an SAP group, a role group and a plain group. The SAP
    authorization follows the plain one even though its group comes first,
    and the role never becomes an authorization.
   */
  lemma MixedMembership(access: string, program: string, sapName: string,
                        rolePath: string, role: string, plainPath: string, plainName: string)
    requires '/' !in access && '/' !in program && program != "" && !IsRoleName(sapName)
    requires forall j :: !OccursAt(role, RolePrefix, j)
    requires !StartsWith(rolePath, SapPrefix)
    requires !StartsWith(plainPath, SapPrefix) && !IsRoleName(plainName)
    ensures Classify([
      Group(SapPrefix + access + "/" + program, sapName),
      Group(rolePath, RolePrefix + role),
      Group(plainPath, plainName)]) ==
      Ok(Classification([plainName, program + "_" + access], [role]))
  {
    var g0 := Group(SapPrefix + access + "/" + program, sapName);
    var g1 := Group(rolePath, RolePrefix + role);
    var g2 := Group(plainPath, plainName);
    var groups := [g0, g1, g2];
    assert groups == [g0] + [g1] + [g2];
    assert UnderSap(g0) by {
      assert g0.path[..|SapPrefix|] == SapPrefix;
    }
    assert IsRoleName(g1.name) by {
      assert g1.name[..|RolePrefix|] == RolePrefix;
    }
    assert PlainAuths(groups) == [plainName] by {
      PlainAuthsAppend([g0] + [g1], [g2]);
      PlainAuthsAppend([g0], [g1]);
      assert PlainAuths([g0]) == [] && PlainAuths([g1]) == [] && PlainAuths([g2]) == [plainName];
    }
    assert SapPaths(groups) == [g0.path] by {
      SapPathsAppend([g0] + [g1], [g2]);
      SapPathsAppend([g0], [g1]);
      assert SapPaths([g0]) == [g0.path] && SapPaths([g1]) == [] && SapPaths([g2]) == [];
    }
    assert Roles(groups) == [role] by {
      RolesAppend([g0] + [g1], [g2]);
      RolesAppend([g0], [g1]);
      RoleOfPrefixed(role);
      assert Roles([g0]) == [] && Roles([g1]) == [role] && Roles([g2]) == [];
    }
    assert program + "" == program;
    SapAuthOfWellFormed(access, program, "");
    SapAuthsSingle(g0.path, program + "_" + access);
    assert [plainName] + [program + "_" + access] == [plainName, program + "_" + access];
  }
}
