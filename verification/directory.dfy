/**
  The directory data the lookup consumes and the errors it can raise.
  A Keycloak realm is reduced to what the lookup reads from it: the user
  listing, in listing order, and each user's group memberships.
 */
module Directory {
  import opened Results

  /**
    A `UserRepresentation`: its attribute map may be null, and each attribute
    maps to an ordered list of values.
   */
  datatype DirectoryUser = DirectoryUser(
    id: string,
    username: string,
    email: string,
    attributes: Option<map<string, seq<string>>>)

  /** A `GroupRepresentation`: a slash-delimited path and a leaf name. */
  datatype Group = Group(path: string, name: string)

  /**
    What `usersResource.list()` and `usersResource.get(id).groups()` return
    at the moment of a lookup. A user id absent from `groupsOf` is one whose
    group listing the directory cannot serve.
   */
  datatype Realm = Realm(users: seq<DirectoryUser>, groupsOf: map<string, seq<Group>>)

  /** Why `translateDN` throws: both are a `StringIndexOutOfBoundsException`. */
  datatype DnDefect =
    | NoComma        // the end index `indexOf(',')` is -1
    | CnAfterComma   // the start index lies past the first comma

  /** The exceptions that abort a lookup. */
  datatype LookupError =
    | InvalidDistinguishedName(subjectDN: string, defect: DnDefect)
    | MissingCertificate(userId: string)   // null `usercertificate` list
    | EmptyCertificate(userId: string)     // `get(0)` on an empty list
    | MalformedGroupPath(path: string)     // fewer than four split segments
    | GroupsUnavailable(userId: string)    // the directory cannot list the groups
}
