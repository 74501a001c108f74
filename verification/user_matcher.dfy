/**
  The `filter(...).findFirst()` over the user listing: the first user whose
  lowercased first `usercertificate` value equals the key. The stream is
  lazy, so a user is examined only if every user before it was passed over.
 */
module UserMatcher {
  import opened Results
  import opened JavaString
  import opened Directory

  const CertificateAttribute: string := "usercertificate"

  /** What examining one user amounts to. */
  datatype Verdict =
    | Skipped            // null attribute map: dropped by the first filter
    | Rejected           // certificate present but different from the key
    | Selected           // certificate equal to the key
    | Failed(error: LookupError)  // the second filter threw

  /** A verdict that ends the scan. */
  predicate Decisive(v: Verdict) {
    v.Selected? || v.Failed?
  }

  /**
    The two filters applied to one user. A non-null map without the
    attribute, or with an empty value list, makes the filter throw rather
    than pass the user over.
   */
  function Examine(key: string, u: DirectoryUser): (v: Verdict)
    ensures u.attributes.None? <==> v.Skipped?
    ensures v.Selected? <==>
      (u.attributes.Some? && CertificateAttribute in u.attributes.value &&
       |u.attributes.value[CertificateAttribute]| > 0 &&
       Lower(u.attributes.value[CertificateAttribute][0]) == key)
    ensures v.Failed? <==>
      (u.attributes.Some? &&
       (CertificateAttribute !in u.attributes.value || |u.attributes.value[CertificateAttribute]| == 0))
  {
    match u.attributes
    case None => Skipped
    case Some(attrs) =>
      if CertificateAttribute !in attrs then Failed(MissingCertificate(u.id))
      else if |attrs[CertificateAttribute]| == 0 then Failed(EmptyCertificate(u.id))
      else if Lower(attrs[CertificateAttribute][0]) == key then Selected
      else Rejected
  }

  /** The outcome a decisive verdict gives the whole scan. */
  function Outcome(v: Verdict, u: DirectoryUser): Result<Option<DirectoryUser>, LookupError>
    requires Decisive(v)
  {
    if v.Selected? then Ok(Some(u)) else Err(v.error)
  }

  /** `users.stream().filter(...).filter(...).findFirst()`. */
  function FindMatch(key: string, users: seq<DirectoryUser>): (r: Result<Option<DirectoryUser>, LookupError>)
    ensures r.Ok? && r.value.Some? ==>
      r.value.value in users && r.value.value.attributes.Some? && Examine(key, r.value.value) == Selected
    ensures r.Err? ==> exists i :: 0 <= i < |users| && Examine(key, users[i]) == Failed(r.error)
    ensures r == Ok(None) <==> forall i :: 0 <= i < |users| ==> !Decisive(Examine(key, users[i]))
  {
    if |users| == 0 then Ok(None)
    else
      var v := Examine(key, users[0]);
      if Decisive(v) then Outcome(v, users[0])
      else
        var r := FindMatch(key, users[1..]);
        assert forall i :: 1 <= i < |users| ==> users[i] == users[1..][i - 1];
        r
  }

  /**
    The scan stops at the first decisive user: its verdict alone decides the
    outcome, whatever follows it.
   */
  lemma {:induction false} FindMatchStopsAtFirstDecisive(key: string, users: seq<DirectoryUser>, k: nat)
    requires k < |users|
    requires forall j :: 0 <= j < k ==> !Decisive(Examine(key, users[j]))
    requires Decisive(Examine(key, users[k]))
    ensures FindMatch(key, users) == Outcome(Examine(key, users[k]), users[k])
  {
    if k > 0 {
      assert !Decisive(Examine(key, users[0]));
      forall j | 0 <= j < k - 1 ensures !Decisive(Examine(key, users[1..][j])) {
        assert users[1..][j] == users[j + 1];
      }
      FindMatchStopsAtFirstDecisive(key, users[1..], k - 1);
    }
  }

  /** A matched user sits at the first decisive position, and it is selected there. */
  lemma {:induction false} FindMatchIsFirst(key: string, users: seq<DirectoryUser>)
    requires FindMatch(key, users) != Ok(None)
    ensures exists k ::
      (0 <= k < |users| && Decisive(Examine(key, users[k])) &&
       (forall j :: 0 <= j < k ==> !Decisive(Examine(key, users[j]))) &&
       FindMatch(key, users) == Outcome(Examine(key, users[k]), users[k]))
  {
    if Decisive(Examine(key, users[0])) {
      assert FindMatch(key, users) == Outcome(Examine(key, users[0]), users[0]);
    } else {
      FindMatchIsFirst(key, users[1..]);
      var k :| 0 <= k < |users[1..]| && Decisive(Examine(key, users[1..][k])) &&
        (forall j :: 0 <= j < k ==> !Decisive(Examine(key, users[1..][j]))) &&
        FindMatch(key, users[1..]) == Outcome(Examine(key, users[1..][k]), users[1..][k]);
      assert users[1..][k] == users[k + 1];
      forall j | 0 <= j < k + 1 ensures !Decisive(Examine(key, users[j])) {
        if j > 0 {
          assert users[j] == users[1..][j - 1];
        }
      }
    }
  }

  /**
    Users after the decisive one are never examined: appending users to the
    listing does not change a decided outcome.
   */
  lemma {:induction false} FindMatchIgnoresLaterUsers(key: string, users: seq<DirectoryUser>, later: seq<DirectoryUser>)
    requires FindMatch(key, users) != Ok(None)
    ensures FindMatch(key, users + later) == FindMatch(key, users)
  {
    if |users| > 0 {
      if !Decisive(Examine(key, users[0])) {
        assert (users + later)[1..] == users[1..] + later;
        FindMatchIgnoresLaterUsers(key, users[1..], later);
      }
    }
  }

  /** Users with a null attribute map can be removed without changing the outcome. */
  lemma {:induction false} FindMatchSkipsNullAttributes(key: string, before: seq<DirectoryUser>, u: DirectoryUser, after: seq<DirectoryUser>)
    requires u.attributes.None?
    ensures FindMatch(key, before + [u] + after) == FindMatch(key, before + after)
    decreases |before|
  {
    var xs := before + [u] + after;
    var ys := before + after;
    if |before| == 0 {
      assert xs[0] == u && xs[1..] == after == ys;
      assert !Decisive(Examine(key, u));
    } else {
      assert xs[0] == before[0] == ys[0];
      assert xs[1..] == before[1..] + [u] + after;
      assert ys[1..] == before[1..] + after;
      FindMatchSkipsNullAttributes(key, before[1..], u, after);
    }
  }
}
