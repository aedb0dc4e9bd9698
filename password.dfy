/** The password policy `/^[A-Z0-9]{4}$/`: exactly four characters, each an
    upper-case ASCII letter or a decimal digit. */
module Password {

  /** `[A-Z0-9]` */
  predicate PolicyChar(c: char) {
    'A' <= c <= 'Z' || '0' <= c <= '9'
  }

  /** The pattern `[A-Z0-9]{n}` anchored at both ends, matched one
      character at a time. */
  function MatchesRepeat(s: string, n: nat): (ok: bool)
    ensures ok <==> |s| == n && forall i :: 0 <= i < |s| ==> PolicyChar(s[i])
  {
    if n == 0 then |s| == 0
    else |s| > 0 && PolicyChar(s[0]) && MatchesRepeat(s[1..], n - 1)
  }

  /** `/^[A-Z0-9]{4}$/.test(password)` */
  function ValidPassword(s: string): (ok: bool)
    ensures ok ==> s != ""
  {
    MatchesRepeat(s, 4)
  }
}
