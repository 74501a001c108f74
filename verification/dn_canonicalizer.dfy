/**
  `translateDN`: the subject DN becomes the lowercase key that is compared
  with each directory user's certificate attribute.
 */
module DnCanonicalizer {
  import opened Results
  import opened JavaString
  import opened Directory

  const CnMarker: string := "cn="

  /**
    The key starts just after the first literal `cn=` (or at 0 when there is
    none) and ends at the first comma; both indices are taken on the original
    string and the substring on its lowercased copy. Java's `substring`
    throws when there is no comma or when the start lies past the comma.
   */
  function TranslateDN(subjectDN: string): (r: Result<string, LookupError>)
    ensures r.Ok? ==> ',' !in r.value && IsLower(r.value)
    ensures r.Ok? <==>
      (',' in subjectDN &&
       (!Contains(subjectDN, CnMarker) || IndexOf(subjectDN, CnMarker) + |CnMarker| <= IndexOfChar(subjectDN, ',')))
    ensures r.Err? ==> r.error.InvalidDistinguishedName? && r.error.subjectDN == subjectDN
  {
    var start := if Contains(subjectDN, CnMarker) then IndexOf(subjectDN, CnMarker) + |CnMarker| else 0;
    var end := IndexOfChar(subjectDN, ',');
    match Substring(Lower(subjectDN), start, end)
    case Some(key) =>
      LowerSlice(subjectDN, start, end);
      LowerKeepsComma(subjectDN[start..end]);
      Ok(key)
    case None =>
      Err(InvalidDistinguishedName(subjectDN, if end < 0 then NoComma else CnAfterComma))
  }

  /** The marker itself holds no comma, so a comma before its end lies before it. */
  lemma CommaBeforeMarkerEnd(s: string, i: int, c: int)
    requires OccursAt(s, CnMarker, i)
    requires 0 <= c < |s| && s[c] == ',' && c < i + |CnMarker|
    ensures c < i
  {
    assert forall k :: i <= k < i + |CnMarker| ==> s[k] == s[i..i + |CnMarker|][k - i];
  }

  /** With `cn=` first at `i` and the first comma at `c >= i + 3`, the key is `lower(s[i+3..c])`. */
  lemma TranslateAfterMarker(s: string, i: nat, c: nat)
    requires OccursAt(s, CnMarker, i) && forall j :: 0 <= j < i ==> !OccursAt(s, CnMarker, j)
    requires c < |s| && s[c] == ',' && ',' !in s[..c]
    requires i + |CnMarker| <= c
    ensures TranslateDN(s) == Ok(Lower(s[i + |CnMarker|..c]))
  {
    FirstComma(s, c);
    LowerSlice(s, i + |CnMarker|, c);
  }

  /** Without any `cn=`, the key is `lower(s[..c])` for the first comma `c`. */
  lemma TranslateWithoutMarker(s: string, c: nat)
    requires forall j :: !OccursAt(s, CnMarker, j)
    requires c < |s| && s[c] == ',' && ',' !in s[..c]
    ensures TranslateDN(s) == Ok(Lower(s[..c]))
  {
    FirstComma(s, c);
    LowerSlice(s, 0, c);
  }

  /** A DN without a comma is rejected. */
  lemma TranslateWithoutComma(s: string)
    requires ',' !in s
    ensures TranslateDN(s) == Err(InvalidDistinguishedName(s, NoComma))
  {
  }

  /**
    A DN whose first comma comes before the end of its first `cn=` is
    rejected; such a comma in fact precedes the whole marker.
   */
  lemma TranslateMarkerAfterComma(s: string, i: nat, c: nat)
    requires OccursAt(s, CnMarker, i) && forall j :: 0 <= j < i ==> !OccursAt(s, CnMarker, j)
    requires c < |s| && s[c] == ',' && ',' !in s[..c]
    requires c < i + |CnMarker|
    ensures TranslateDN(s) == Err(InvalidDistinguishedName(s, CnAfterComma))
    ensures c < i
  {
    FirstComma(s, c);
    CommaBeforeMarkerEnd(s, i, c);
  }

  lemma FirstComma(s: string, c: nat)
    requires c < |s| && s[c] == ',' && ',' !in s[..c]
    ensures IndexOfChar(s, ',') == c
  {
    assert forall k :: 0 <= k < c ==> s[k] == s[..c][k];
  }

  /**
    A DN with a comma ahead of its first `cn=` fails, even though it has
    both: `substring` would start past its end. `uid=1,cn=alice,...` is one.
   */
  lemma CommaAheadOfMarker(head: string, rest: string)
    requires ',' !in head && forall j :: !OccursAt(head, CnMarker, j)
    ensures TranslateDN(head + "," + CnMarker + rest) ==
      Err(InvalidDistinguishedName(head + "," + CnMarker + rest, CnAfterComma))
  {
    var s := head + "," + CnMarker + rest;
    var c := |head|;
    assert s[c] == ',' && s[..c] == head;
    FirstComma(s, c);
    assert s[c + 1..c + 1 + |CnMarker|] == CnMarker;
    assert OccursAt(s, CnMarker, c + 1);
    forall j | 0 <= j && j + |CnMarker| <= c ensures !OccursAt(s, CnMarker, j) {
      assert !OccursAt(head, CnMarker, j);
      assert s[j..j + |CnMarker|] == head[j..j + |CnMarker|];
    }
  }

  /**
    A DN that starts with `cn=` yields its common name, lowercased:
    `cn=Alice,dc=example,dc=com` gives `alice`.
   */
  lemma LeadingCommonName(name: string, rest: string)
    requires ',' !in name
    ensures TranslateDN(CnMarker + name + "," + rest) == Ok(Lower(name))
  {
    var s := CnMarker + name + "," + rest;
    var c := |CnMarker| + |name|;
    assert s[..|CnMarker|] == CnMarker;
    assert OccursAt(s, CnMarker, 0);
    assert s[c] == ',' && s[..c] == CnMarker + name;
    assert s[|CnMarker|..c] == name;
    TranslateAfterMarker(s, 0, c);
  }
}
