/** Lower-casing of user names and the rule that makes one user an administrator. */
module Casing {

  /** The reserved name; a user whose lower-cased name equals it is an administrator. */
  const AdminName: string := "roie"

  /** One character lower-cased: a capital 'A'..'Z' becomes its small letter. */
  function LowerChar(c: char): char {
    if 'A' <= c <= 'Z' then (c as int + 32) as char else c
  }

  /** ASCII lower-casing: every letter 'A'..'Z' becomes its small letter, nothing else moves. */
  function ToLower(s: string): (r: string)
    ensures |r| == |s|
    ensures forall i :: 0 <= i < |s| ==> r[i] == LowerChar(s[i])
  {
    if s == [] then [] else [LowerChar(s[0])] + ToLower(s[1..])
  }

  /** The admin flag register stores: the lower-cased name compared with `AdminName`. */
  predicate IsAdminName(username: string) {
    ToLower(username) == AdminName
  }

  /** Upper-case form of character `k` of the reserved name. */
  function UpperAdminChar(k: nat): char
    requires k < |AdminName|
  {
    "ROIE"[k]
  }

  /** An independent reading of the admin rule: the name has four characters and each is the
      matching letter of "roie" in either case. */
  lemma AdminNameExactly(username: string)
    ensures IsAdminName(username) <==>
      |username| == |AdminName| &&
      forall k :: 0 <= k < |username| ==>
        username[k] == AdminName[k] || username[k] == UpperAdminChar(k)
  {
  }

  lemma AdminNameExamples()
    ensures IsAdminName("roie") && IsAdminName("Roie") && IsAdminName("ROIE")
    ensures !IsAdminName("roie2") && !IsAdminName("rose") && !IsAdminName("")
  {
  }
}
