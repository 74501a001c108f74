# Keycloak DATAWAVE user lookup, modelled in Dafny

This project models `KeycloakDatawaveUserLookup`, the component of the
DATAWAVE authorization service that resolves a certificate identity (a
subject/issuer DN pair) to a `DatawaveUser` by querying a Keycloak realm.
It covers these steps:

1. `translateDN` turns the subject DN into a lowercase key: the text from
   just after the first `cn=` (or from the start) up to the first comma.
2. The realm's user listing is scanned lazily for the first user whose
   lowercased first `usercertificate` value equals the key.
3. For a matched user, the user's groups are classified into three lists:
   - plain authorizations: group names outside `/SAP_ACCESS_2/` that are not
     `ROLE_` names;
   - SAP authorizations: `<program>_<access>` for each
     `/SAP_ACCESS_2/<access>/<program>` path;
   - roles: `ROLE_` names with `ROLE_` removed.
4. These lists become a `USER` record. Without a match the result is a
   `SERVER` record with null lists.

`lookupUser` and `reloadUser` both delegate to `buildUser`.

Layout, one module per file:

- `results.dfy` (`Results`): `Option` and `Result`. A Java null becomes
  `None` and a Java exception becomes `Err`.
- `java_string.dfy` (`JavaString`): the `java.lang.String` operations
  the lookup relies on, with Java's edge cases:
  - `indexOf` returns -1 when the text is absent;
  - `substring` throws on bad bounds;
  - `split` with limit 0 drops trailing empty strings;
  - `replace` is one non-overlapping left-to-right pass.
- `directory.dfy` (`Directory`): users, groups, the realm snapshot and
  the exceptions a lookup can raise.
- `dn_canonicalizer.dfy` (`DnCanonicalizer`): `translateDN`.
- `user_matcher.dfy` (`UserMatcher`): the two stream filters and `findFirst`.
- `group_classifier.dfy` (`GroupClassifier`): the three group passes.
- `user_lookup.dfy` (`UserLookup`): `buildUser`, `lookupUser` and `reloadUser`.

The Keycloak client is replaced by a `Realm` value. It holds the user
listing in order, plus a map from user id to that user's groups. A user
id missing from the map stands for a group listing the directory cannot
serve. `System.currentTimeMillis()` becomes the `now` parameter.

Behaviour of the code worth noting, all of it modelled as written:

- **Missing certificate.** A user whose attribute map is non-null but has
  no `usercertificate` entry is not passed over. `get(0)` on a null list
  throws, and so does `get(0)` on an empty list. Both abort the whole
  lookup, even if a later user would have matched (`UserMatcher.Examine`).
- **`cn=` after the first comma.** `translateDN` fails not only without a
  comma but also when the first `cn=` comes after the first comma, because
  the substring start then lies past its end. A DN such as
  `uid=1,cn=alice,dc=example,dc=com` is rejected
  (`DnCanonicalizer.CommaAheadOfMarker`).
- **Roles may keep the prefix.** `replace("ROLE_", "")` removes every
  occurrence in a single pass, so a role can still begin with `ROLE_`
  (`GroupClassifier.RoleCanKeepPrefix`).
- **No match gives nulls.** Without a match both lists are null (`None`),
  and no group listing is requested.
- **Order of authorizations.** Authorizations form an ordered list. Plain
  names come first and SAP authorizations after them, whatever the group
  order (`GroupClassifier.MixedMembership`).
- **DN checked first.** The DN is translated (source line 65) before the
  user listing is examined. A malformed DN fails even against an empty
  directory (`UserLookup.MalformedDnFailsFirst`).

## Model

| member | source | states |
|---|---|---|
| JavaString.Lower | service/src/main/java/datawave/microservice/authorization/keycloak/KeycloakDatawaveUserLookup.java:101 | `toLowerCase` keeps the length, lowercases each ASCII letter at its position and yields a string with no upper-case letter |
| JavaString.LowerOfLower | service/src/main/java/datawave/microservice/authorization/keycloak/KeycloakDatawaveUserLookup.java:67 | lowercasing an already lowercase string (such as the key) changes nothing |
| JavaString.LowerSlice | service/src/main/java/datawave/microservice/authorization/keycloak/KeycloakDatawaveUserLookup.java:101 | lowercasing then taking `substring` equals taking the substring then lowercasing |
| JavaString.LowerKeepsComma | service/src/main/java/datawave/microservice/authorization/keycloak/KeycloakDatawaveUserLookup.java:101 | a lowercased string holds a comma exactly when the original does |
| JavaString.IndexOf | service/src/main/java/datawave/microservice/authorization/keycloak/KeycloakDatawaveUserLookup.java:100 | `indexOf` is -1 or an index where the text occurs, and the text occurs at no earlier index |
| JavaString.IndexOfChar | service/src/main/java/datawave/microservice/authorization/keycloak/KeycloakDatawaveUserLookup.java:101 | `indexOf(',')` is -1 exactly when there is no comma; otherwise it is the first comma's index |
| JavaString.Contains | service/src/main/java/datawave/microservice/authorization/keycloak/KeycloakDatawaveUserLookup.java:100 | `contains` holds exactly when the text occurs at some index |
| JavaString.Substring | service/src/main/java/datawave/microservice/authorization/keycloak/KeycloakDatawaveUserLookup.java:101 | `substring(b, e)` succeeds exactly when 0 <= b <= e <= length, and then returns the characters b..e-1 |
| JavaString.Replace | service/src/main/java/datawave/microservice/authorization/keycloak/KeycloakDatawaveUserLookup.java:92 | replacing by text no longer than the target never lengthens the string; its partners below give the value on a leading occurrence, on a copied prefix and on a string without occurrences |
| JavaString.ReplaceAbsent | service/src/main/java/datawave/microservice/authorization/keycloak/KeycloakDatawaveUserLookup.java:92 | `replace` leaves a string with no occurrence of the target unchanged |
| JavaString.ReplaceCopiesFirst | service/src/main/java/datawave/microservice/authorization/keycloak/KeycloakDatawaveUserLookup.java:92 | where no occurrence starts at the first character, that character is copied and the scan resumes at the next one |
| JavaString.ReplaceLeading | service/src/main/java/datawave/microservice/authorization/keycloak/KeycloakDatawaveUserLookup.java:92 | a leading occurrence is replaced and the scan resumes right after it |
| JavaString.ReplaceSkipsPrefix | service/src/main/java/datawave/microservice/authorization/keycloak/KeycloakDatawaveUserLookup.java:92 | a prefix in which no occurrence starts is copied through unchanged |
| JavaString.ReplaceByEmptyShrinks | service/src/main/java/datawave/microservice/authorization/keycloak/KeycloakDatawaveUserLookup.java:92 | removing the target shortens a string in which it occurs by at least the target's length |
| JavaString.Pieces | service/src/main/java/datawave/microservice/authorization/keycloak/KeycloakDatawaveUserLookup.java:85 | a string splits into at least one piece, and no piece holds the separator |
| JavaString.JoinPieces | service/src/main/java/datawave/microservice/authorization/keycloak/KeycloakDatawaveUserLookup.java:85 | joining the pieces with the separator gives back the original string |
| JavaString.PiecesOfJoin | service/src/main/java/datawave/microservice/authorization/keycloak/KeycloakDatawaveUserLookup.java:85 | splitting a join of separator-free pieces gives back the pieces |
| JavaString.PiecesAcrossSeparator | service/src/main/java/datawave/microservice/authorization/keycloak/KeycloakDatawaveUserLookup.java:85 | the pieces of x/y are the pieces of x followed by the pieces of y |
| JavaString.DropTrailingEmpty | service/src/main/java/datawave/microservice/authorization/keycloak/KeycloakDatawaveUserLookup.java:85 | the result is a prefix of the input that does not end in an empty string, and only empty strings were dropped |
| JavaString.Split | service/src/main/java/datawave/microservice/authorization/keycloak/KeycloakDatawaveUserLookup.java:85 | without the separator the result is the whole string; otherwise it is the leading pieces up to the last non-empty one, only empty pieces being dropped; no element holds the separator |
| JavaString.SplitLength | service/src/main/java/datawave/microservice/authorization/keycloak/KeycloakDatawaveUserLookup.java:85-88 | `split` yields at least n >= 2 elements exactly when some piece at index n-1 or later is non-empty, and each element is the piece at the same index |
| DnCanonicalizer.TranslateDN | service/src/main/java/datawave/microservice/authorization/keycloak/KeycloakDatawaveUserLookup.java:99-102 | the key holds no comma and no upper-case letter. Translation succeeds exactly when the DN has a comma and either has no `cn=` or its first `cn=` ends at or before the first comma. A failure reports the DN |
| DnCanonicalizer.TranslateAfterMarker | service/src/main/java/datawave/microservice/authorization/keycloak/KeycloakDatawaveUserLookup.java:100-101 | when the first `cn=` ends at or before the first comma, the key is the lowercased text between them |
| DnCanonicalizer.TranslateWithoutMarker | service/src/main/java/datawave/microservice/authorization/keycloak/KeycloakDatawaveUserLookup.java:100-101 | without `cn=`, the key is the lowercased text before the first comma |
| DnCanonicalizer.TranslateWithoutComma | service/src/main/java/datawave/microservice/authorization/keycloak/KeycloakDatawaveUserLookup.java:101 | a DN without a comma is rejected as having no comma |
| DnCanonicalizer.TranslateMarkerAfterComma | service/src/main/java/datawave/microservice/authorization/keycloak/KeycloakDatawaveUserLookup.java:100-101 | a DN whose first comma comes before the end of its first `cn=` is rejected as a start past the comma, and that comma then precedes the whole marker |
| DnCanonicalizer.CommaAheadOfMarker | service/src/main/java/datawave/microservice/authorization/keycloak/KeycloakDatawaveUserLookup.java:99-102 | `<head>,cn=<rest>`, with no comma and no `cn=` in head (such as `uid=1,cn=alice,dc=example,dc=com`), is rejected as a start past the comma |
| DnCanonicalizer.LeadingCommonName | service/src/main/java/datawave/microservice/authorization/keycloak/KeycloakDatawaveUserLookup.java:99-102 | `cn=<name>,<rest>` with a comma-free name translates to the lowercased name (so `cn=Alice,dc=example,dc=com` gives `alice`) |
| UserMatcher.Examine | service/src/main/java/datawave/microservice/authorization/keycloak/KeycloakDatawaveUserLookup.java:66-67 | a null attribute map skips the user. A missing or empty `usercertificate` list throws. Otherwise the user is selected exactly when the lowercased first value equals the key |
| UserMatcher.FindMatch | service/src/main/java/datawave/microservice/authorization/keycloak/KeycloakDatawaveUserLookup.java:66-67 | a found user is in the listing and has a matching certificate. A failure comes from some user whose filter throws. There is no match exactly when no user is decisive (selected or throwing) |
| UserMatcher.FindMatchStopsAtFirstDecisive | service/src/main/java/datawave/microservice/authorization/keycloak/KeycloakDatawaveUserLookup.java:66-67 | the first decisive user alone decides the outcome of `findFirst` |
| UserMatcher.FindMatchIsFirst | service/src/main/java/datawave/microservice/authorization/keycloak/KeycloakDatawaveUserLookup.java:66-67 | a decided outcome comes from a decisive user with no decisive user before it |
| UserMatcher.FindMatchIgnoresLaterUsers | service/src/main/java/datawave/microservice/authorization/keycloak/KeycloakDatawaveUserLookup.java:66-67 | users appended after a decided scan do not change its outcome |
| UserMatcher.FindMatchSkipsNullAttributes | service/src/main/java/datawave/microservice/authorization/keycloak/KeycloakDatawaveUserLookup.java:66 | removing a user with a null attribute map from anywhere in the listing does not change the outcome |
| GroupClassifier.PlainAuths | service/src/main/java/datawave/microservice/authorization/keycloak/KeycloakDatawaveUserLookup.java:79-80 | plain authorizations are exactly the names of groups outside `/SAP_ACCESS_2/` whose name does not start with `ROLE_`; none starts with `ROLE_` |
| GroupClassifier.PlainAuthsAppend | service/src/main/java/datawave/microservice/authorization/keycloak/KeycloakDatawaveUserLookup.java:79-80 | plain authorizations keep group order (they distribute over concatenation) |
| GroupClassifier.SapPaths | service/src/main/java/datawave/microservice/authorization/keycloak/KeycloakDatawaveUserLookup.java:81-82 | the SAP paths are exactly the paths of the groups under `/SAP_ACCESS_2/` |
| GroupClassifier.SapPathsAppend | service/src/main/java/datawave/microservice/authorization/keycloak/KeycloakDatawaveUserLookup.java:81-82 | SAP paths keep group order |
| GroupClassifier.SapAuth | service/src/main/java/datawave/microservice/authorization/keycloak/KeycloakDatawaveUserLookup.java:85-89 | any path yields an authorization exactly when some piece between slashes from index 3 on is non-empty (so the split keeps four elements); the authorization is piece 3, `_`, piece 2, later pieces being ignored; otherwise the path is reported as malformed |
| GroupClassifier.SapAuthOfWellFormed | service/src/main/java/datawave/microservice/authorization/keycloak/KeycloakDatawaveUserLookup.java:85-89 | `/SAP_ACCESS_2/<access>/<program>[/...]` yields `<program>_<access>` |
| GroupClassifier.SapAuthTooShort | service/src/main/java/datawave/microservice/authorization/keycloak/KeycloakDatawaveUserLookup.java:85-88 | `/SAP_ACCESS_2/<x>` and `/SAP_ACCESS_2/<x>/` are malformed (index 3 is out of bounds) |
| GroupClassifier.SapAuths | service/src/main/java/datawave/microservice/authorization/keycloak/KeycloakDatawaveUserLookup.java:83-90 | the loop yields one authorization per path, in path order, exactly when every path is well formed; otherwise the first malformed path's error |
| GroupClassifier.RoleOf | service/src/main/java/datawave/microservice/authorization/keycloak/KeycloakDatawaveUserLookup.java:92 | removing `ROLE_` from a role name shortens it by at least the prefix's length |
| GroupClassifier.RoleOfPrefixed | service/src/main/java/datawave/microservice/authorization/keycloak/KeycloakDatawaveUserLookup.java:92 | `ROLE_x`, where x holds no `ROLE_`, becomes x |
| GroupClassifier.RoleCanKeepPrefix | service/src/main/java/datawave/microservice/authorization/keycloak/KeycloakDatawaveUserLookup.java:92 | `ROLE_ROLROLE_E_x` becomes `ROLE_x`: a role can still start with `ROLE_` |
| GroupClassifier.Roles | service/src/main/java/datawave/microservice/authorization/keycloak/KeycloakDatawaveUserLookup.java:91-92 | the roles are exactly the `ROLE_`-stripped names of the groups named `ROLE_...`, whatever their paths |
| GroupClassifier.RolesAppend | service/src/main/java/datawave/microservice/authorization/keycloak/KeycloakDatawaveUserLookup.java:91-92 | roles keep group order |
| GroupClassifier.Classify | service/src/main/java/datawave/microservice/authorization/keycloak/KeycloakDatawaveUserLookup.java:79-92 | classification succeeds exactly when every SAP path is well formed; otherwise the error is that of the first malformed SAP path, in group order. On success the authorizations are the plain ones followed by one SAP authorization per SAP path, in order, and the roles are the role list |
| GroupClassifier.SapRoleGroup | service/src/main/java/datawave/microservice/authorization/keycloak/KeycloakDatawaveUserLookup.java:79-92 | a `ROLE_x` group under `/SAP_ACCESS_2/` yields one SAP authorization and the role x, never its raw name |
| GroupClassifier.SapAuthsSingle | service/src/main/java/datawave/microservice/authorization/keycloak/KeycloakDatawaveUserLookup.java:83-90 | the loop over one well-formed path yields that path's authorization |
| GroupClassifier.MixedMembership | service/src/main/java/datawave/microservice/authorization/keycloak/KeycloakDatawaveUserLookup.java:79-92 | with an SAP group, a role group and a plain group, the plain name comes before the SAP authorization and the role is not an authorization |
| UserLookup.UserRecord | service/src/main/java/datawave/microservice/authorization/keycloak/KeycloakDatawaveUserLookup.java:94 | a matched user's record is a USER record with the DN, the time, that user's email and classified lists; it fails exactly when classification fails, and then with classification's error (the index error of line 88 propagates) |
| UserLookup.ServerRecord | service/src/main/java/datawave/microservice/authorization/keycloak/KeycloakDatawaveUserLookup.java:96 | without a match the record is a SERVER record with an empty email and null lists |
| UserLookup.BuildUser | service/src/main/java/datawave/microservice/authorization/keycloak/KeycloakDatawaveUserLookup.java:55-97 | a DN error is the outcome whatever the directory holds. Every record carries the DN and the timestamp. A SERVER record comes exactly when no user is decisive, and a matching error is passed through. A USER record belongs to the matched user and carries that user's email and classified lists; a classification error is passed through (`Resolves`) |
| UserLookup.ResolvesDeterminesOutcome | service/src/main/java/datawave/microservice/authorization/keycloak/KeycloakDatawaveUserLookup.java:55-97 | the lookup's promise (`Resolves`) fixes the outcome completely: two outcomes meeting it are equal |
| UserLookup.LookupUser | service/src/main/java/datawave/microservice/authorization/keycloak/KeycloakDatawaveUserLookup.java:46-48 | `lookupUser` performs the whole lookup: its outcome meets the same promise as `buildUser` (`Resolves`), which determines it |
| UserLookup.ReloadUser | service/src/main/java/datawave/microservice/authorization/keycloak/KeycloakDatawaveUserLookup.java:51-53 | `reloadUser` performs the whole lookup: its outcome meets the same promise as `buildUser` (`Resolves`), which determines it |
| UserLookup.BuildUserTimeIndependent | service/src/main/java/datawave/microservice/authorization/keycloak/KeycloakDatawaveUserLookup.java:94-96 | two lookups at different times differ at most in the creation time |
| UserLookup.LookupAgreesWithReload | service/src/main/java/datawave/microservice/authorization/keycloak/KeycloakDatawaveUserLookup.java:45-53 | `lookupUser` and `reloadUser` agree on the same state: equal at the same time, and equal up to the timestamp otherwise |
| UserLookup.NoMatchNeverReadsGroups | service/src/main/java/datawave/microservice/authorization/keycloak/KeycloakDatawaveUserLookup.java:69-96 | without a match the group listings are never consulted, and the result is the SERVER record |
| UserLookup.MatchedUserRecord | service/src/main/java/datawave/microservice/authorization/keycloak/KeycloakDatawaveUserLookup.java:69-94 | a matched user's record carries its email and its classified authorizations and roles |
| UserLookup.LaterUsersNeverExamined | service/src/main/java/datawave/microservice/authorization/keycloak/KeycloakDatawaveUserLookup.java:66-67 | users listed after the decisive one do not affect the lookup |
| UserLookup.MalformedDnFailsFirst | service/src/main/java/datawave/microservice/authorization/keycloak/KeycloakDatawaveUserLookup.java:65-67 | a rejected DN fails the lookup even against an empty directory |
| UserLookup.EmptyDirectoryGivesServer | service/src/main/java/datawave/microservice/authorization/keycloak/KeycloakDatawaveUserLookup.java:66-69 | with no users, every well-formed DN resolves to a SERVER record |
| UserLookup.ResolvesByCertificate | service/src/main/java/datawave/microservice/authorization/keycloak/KeycloakDatawaveUserLookup.java:66-94 | a null-attribute user is passed over, the next user's certificate matches case-insensitively, and that user's record results whatever follows |

## Left out

- Caching: the `@Cacheable` annotations are commented out in the source, so both entry points behave identically; cache-key handling is not modelled.
- The Keycloak client: construction, TLS with trust checks disabled, the connection pool, credentials and the `/groups` resource (obtained but never used). The directory is a `Realm` value.
- Transport failures of `usersResource.list()`: not modelled. A failing per-user group listing is modelled only as `GroupsUnavailable` for a user id missing from `groupsOf`.
- Logging and the Gson pretty-printing calls: they have no effect on the result.
- `System.currentTimeMillis()`: it becomes the `now` parameter.
- The `DatawaveUser` constructor's own processing, and its null role-to-authorization mapping: the record is the constructor's arguments.
- JavaString.Lower: lowercasing is ASCII only; Java's locale-dependent, non-ASCII `toLowerCase` is not modelled.
- Null strings: a null subject DN, group path, group name or certificate value would throw in Java, and a null email would pass through to the record unchanged (source line 94 makes no call on it). Strings here are never null, so neither case is represented (`email: string`).
- JavaString.Split: modelled only for a single ordinary separator character, which is the only way the source calls it.
- UserMatcher.FindMatch: `translateDN` is re-evaluated inside the filter for every user; the model computes the key once, which gives the same result because the function is pure.
- Idempotence of the classification: every operation is a pure function of a directory snapshot, so repeating it is trivially the same.
