/**
  `buildUser` and its two entry points `lookupUser` and `reloadUser`: the
  subject DN is canonicalised, the user listing scanned for the first
  matching user, and the matched user's groups classified into a record.
  The Keycloak client is replaced by a `Realm` value and the clock by the
  `now` parameter.
 */
module UserLookup {
  import opened Results
  import opened JavaString
  import opened Directory
  import opened DnCanonicalizer
  import opened UserMatcher
  import opened GroupClassifier

  /** A `SubjectIssuerDNPair`: the identity being resolved. */
  datatype DnPair = DnPair(subjectDN: string, issuerDN: string)

  datatype UserType = User | Server

  /**
    The arguments handed to the `DatawaveUser` constructor; the lists are
    null for a server, and the role-to-authorization mapping, always null
    here, is not represented.
   */
  datatype DatawaveUser = DatawaveUser(
    dn: DnPair,
    userType: UserType,
    email: string,
    auths: Option<seq<string>>,
    roles: Option<seq<string>>,
    creationTime: int)

  /**
    The record built when a user matched: its email and the classified
    lists, or the error a malformed SAP path raises.
   */
  function UserRecord(dn: DnPair, u: DirectoryUser, groups: seq<Group>, now: int): (r: Result<DatawaveUser, LookupError>)
    ensures r.Ok? <==> Classify(groups).Ok?
    ensures r.Err? ==> r.error == Classify(groups).error
    ensures r.Ok? ==> r.value.dn == dn && r.value.creationTime == now
    ensures r.Ok? ==>
      r.value.userType == User && r.value.email == u.email &&
      r.value.auths == Some(Classify(groups).value.auths) &&
      r.value.roles == Some(Classify(groups).value.roles)
  {
    var c :- Classify(groups);
    Ok(DatawaveUser(dn, User, u.email, Some(c.auths), Some(c.roles), now))
  }

  /** The record built when no user matched; no group listing is requested. */
  function ServerRecord(dn: DnPair, now: int): (r: DatawaveUser)
    ensures r.userType == Server && r.email == "" && r.auths.None? && r.roles.None?
    ensures r.dn == dn && r.creationTime == now
  {
    DatawaveUser(dn, Server, "", None, None, now)
  }

  /**
    What a lookup of `dn` against `realm` at time `now` promises of its
    outcome `r`. A DN error is the outcome whatever the directory holds.
    Every record carries the DN and the time. A SERVER record comes exactly
    when no user is decisive. A matching error is passed through. A USER
    record belongs to the matched user, whose groups the directory listed,
    and carries that user's email and classified lists. A classification
    error is passed through as well.
   */
  predicate Resolves(dn: DnPair, realm: Realm, now: int, r: Result<DatawaveUser, LookupError>) {
    match TranslateDN(dn.subjectDN)
    case Err(e) => r == Err(e)
    case Ok(key) =>
      (r.Ok? ==> r.value.dn == dn && r.value.creationTime == now) &&
      match FindMatch(key, realm.users)
      case Err(e) => r == Err(e)
      case Ok(None) => r == Ok(ServerRecord(dn, now))
      case Ok(Some(u)) =>
        u in realm.users && u.attributes.Some? &&
        (u.id !in realm.groupsOf ==> r == Err(GroupsUnavailable(u.id))) &&
        (u.id in realm.groupsOf ==>
          var c := Classify(realm.groupsOf[u.id]);
          (c.Err? ==> r == Err(c.error)) &&
          (c.Ok? ==> r.Ok? && r.value.userType == User && r.value.email == u.email &&
                     r.value.auths == Some(c.value.auths) && r.value.roles == Some(c.value.roles)))
  }

  /** The promise leaves nothing open: at most one outcome meets it. */
  lemma ResolvesDeterminesOutcome(dn: DnPair, realm: Realm, now: int,
                                  r1: Result<DatawaveUser, LookupError>, r2: Result<DatawaveUser, LookupError>)
    requires Resolves(dn, realm, now, r1) && Resolves(dn, realm, now, r2)
    ensures r1 == r2
  {
  }

  /**
    `buildUser`. The DN is translated before the user listing is read, so a
    malformed DN fails whatever the directory holds; groups are requested
    only for a matched user.
   */
  function BuildUser(dn: DnPair, realm: Realm, now: int): (r: Result<DatawaveUser, LookupError>)
    ensures Resolves(dn, realm, now, r)
    ensures TranslateDN(dn.subjectDN).Err? ==> r == Err(TranslateDN(dn.subjectDN).error)
    ensures r.Ok? ==> r.value.dn == dn && r.value.creationTime == now
    ensures r.Ok? && r.value.userType == Server ==>
      r.value.email == "" && r.value.auths.None? && r.value.roles.None?
    ensures r.Ok? && r.value.userType == User ==>
      r.value.auths.Some? && r.value.roles.Some? &&
      exists u :: u in realm.users && u.attributes.Some? && r.value.email == u.email
    ensures TranslateDN(dn.subjectDN).Ok? ==>
      var found := FindMatch(TranslateDN(dn.subjectDN).value, realm.users);
      (found == Ok(None) <==> (r.Ok? && r.value.userType == Server)) &&
      (found.Err? ==> r == Err(found.error))
  {
    var key :- TranslateDN(dn.subjectDN);
    var found :- FindMatch(key, realm.users);
    match found
    case None => Ok(ServerRecord(dn, now))
    case Some(u) =>
      if u.id !in realm.groupsOf then Err(GroupsUnavailable(u.id))
      else UserRecord(dn, u, realm.groupsOf[u.id], now)
  }

  /** `lookupUser` (its caching annotation is commented out): the whole lookup. */
  function LookupUser(dn: DnPair, realm: Realm, now: int): (r: Result<DatawaveUser, LookupError>)
    ensures Resolves(dn, realm, now, r)
  {
    BuildUser(dn, realm, now)
  }

  /** `reloadUser` (its caching annotation is commented out): the whole lookup. */
  function ReloadUser(dn: DnPair, realm: Realm, now: int): (r: Result<DatawaveUser, LookupError>)
    ensures Resolves(dn, realm, now, r)
  {
    BuildUser(dn, realm, now)
  }

  /** Two outcomes that differ at most in the record's creation time. */
  predicate SameUpToTime(a: Result<DatawaveUser, LookupError>, b: Result<DatawaveUser, LookupError>) {
    match (a, b)
    case (Ok(x), Ok(y)) => x.(creationTime := 0) == y.(creationTime := 0)
    case (Err(e), Err(f)) => e == f
    case _ => false
  }

  /** The timestamp is the only input that reaches the record unchanged and alone. */
  lemma BuildUserTimeIndependent(dn: DnPair, realm: Realm, t1: int, t2: int)
    ensures SameUpToTime(BuildUser(dn, realm, t1), BuildUser(dn, realm, t2))
  {
    var key := TranslateDN(dn.subjectDN);
    if key.Ok? {
      var found := FindMatch(key.value, realm.users);
      if found.Ok? && found.value.Some? {
        var u := found.value.value;
        if u.id in realm.groupsOf {
          var c := Classify(realm.groupsOf[u.id]);
          if c.Ok? {
            assert BuildUser(dn, realm, t1) == UserRecord(dn, u, realm.groupsOf[u.id], t1);
            assert BuildUser(dn, realm, t2) == UserRecord(dn, u, realm.groupsOf[u.id], t2);
          }
        }
      }
    }
  }

  /** `lookupUser` and `reloadUser` agree on the same DN and directory state, up to the timestamp. */
  lemma LookupAgreesWithReload(dn: DnPair, realm: Realm, t1: int, t2: int)
    ensures SameUpToTime(LookupUser(dn, realm, t1), ReloadUser(dn, realm, t2))
    ensures LookupUser(dn, realm, t1) == ReloadUser(dn, realm, t1)
  {
    BuildUserTimeIndependent(dn, realm, t1, t2);
  }

  /**
    Without a matched user the group listings are never consulted: any two
    directories with the same user listing give the same outcome.
   */
  lemma NoMatchNeverReadsGroups(dn: DnPair, users: seq<DirectoryUser>, g1: map<string, seq<Group>>, g2: map<string, seq<Group>>, now: int)
    requires TranslateDN(dn.subjectDN).Ok? ==> FindMatch(TranslateDN(dn.subjectDN).value, users) == Ok(None)
    ensures BuildUser(dn, Realm(users, g1), now) == BuildUser(dn, Realm(users, g2), now)
    ensures TranslateDN(dn.subjectDN).Ok? ==> BuildUser(dn, Realm(users, g1), now) == Ok(ServerRecord(dn, now))
  {
  }

  /** A matched user's record carries its email and its classified groups. */
  lemma MatchedUserRecord(dn: DnPair, realm: Realm, now: int, u: DirectoryUser)
    requires TranslateDN(dn.subjectDN).Ok?
    requires FindMatch(TranslateDN(dn.subjectDN).value, realm.users) == Ok(Some(u))
    requires u.id in realm.groupsOf
    ensures BuildUser(dn, realm, now) == UserRecord(dn, u, realm.groupsOf[u.id], now)
    ensures Classify(realm.groupsOf[u.id]).Ok? ==>
      BuildUser(dn, realm, now) ==
        Ok(DatawaveUser(dn, User, u.email,
                        Some(Classify(realm.groupsOf[u.id]).value.auths),
                        Some(Classify(realm.groupsOf[u.id]).value.roles), now))
  {
  }

  /**
    Users listed after the decisive one are never examined: appending users
    to the listing leaves a matched (or failed) lookup unchanged.
   */
  lemma LaterUsersNeverExamined(dn: DnPair, realm: Realm, later: seq<DirectoryUser>, now: int)
    requires TranslateDN(dn.subjectDN).Ok?
    requires FindMatch(TranslateDN(dn.subjectDN).value, realm.users) != Ok(None)
    ensures BuildUser(dn, realm.(users := realm.users + later), now) == BuildUser(dn, realm, now)
  {
    FindMatchIgnoresLaterUsers(TranslateDN(dn.subjectDN).value, realm.users, later);
  }

  /** A DN that `translateDN` rejects fails the lookup even against an empty directory. */
  lemma MalformedDnFailsFirst(dn: DnPair, now: int)
    requires TranslateDN(dn.subjectDN).Err?
    ensures BuildUser(dn, Realm([], map[]), now).Err?
    ensures BuildUser(dn, Realm([], map[]), now).error.InvalidDistinguishedName?
  {
  }

  /** With an empty listing every well-formed DN resolves to a server record. */
  lemma EmptyDirectoryGivesServer(dn: DnPair, groupsOf: map<string, seq<Group>>, now: int)
    requires TranslateDN(dn.subjectDN).Ok?
    ensures BuildUser(dn, Realm([], groupsOf), now) == Ok(ServerRecord(dn, now))
  {
  }

  /**
    A worked resolution: a user with a null attribute map is passed over, the
    next user's first certificate value matches the key case-insensitively,
    and the record carries that user's classified groups whatever follows.
   */
  lemma ResolvesByCertificate(dn: DnPair, nobody: DirectoryUser, holder: DirectoryUser, cert: string,
                              more: seq<string>, later: seq<DirectoryUser>, groups: seq<Group>, now: int)
    requires TranslateDN(dn.subjectDN) == Ok(Lower(cert))
    requires nobody.attributes.None?
    requires holder.attributes == Some(map[CertificateAttribute := [cert] + more])
    ensures BuildUser(dn, Realm([nobody, holder] + later, map[holder.id := groups]), now) ==
      UserRecord(dn, holder, groups, now)
  {
    var key := Lower(cert);
    var users := [nobody, holder];
    assert Examine(key, holder) == Selected;
    FindMatchStopsAtFirstDecisive(key, users, 1);
    FindMatchIgnoresLaterUsers(key, users, later);
  }
}
