/** The file-name sanitiser `safeFile`: letters, digits, '_', '-' and '.'
    are kept, every other byte becomes '_'. */
module Sanitize {
  import opened Bytes

  /** The bytes `safeFile` keeps: [A-Za-z0-9_.-]. */
  predicate IsSafe(b: Byte)
  {
    (0x61 <= b <= 0x7A) || (0x41 <= b <= 0x5A) || (0x30 <= b <= 0x39)
    || b == UNDERSCORE || b == 0x2D || b == 0x2E
  }

  predicate AllSafe(s: Bytes)
  {
    forall i :: 0 <= i < |s| ==> IsSafe(s[i])
  }

  function SafeFile(s: Bytes): (r: Bytes)
    ensures |r| == |s|
    ensures AllSafe(r)
    ensures forall i :: 0 <= i < |s| ==> (r[i] == s[i] <==> IsSafe(s[i]))
    ensures forall i :: 0 <= i < |s| && !IsSafe(s[i]) ==> r[i] == UNDERSCORE
  {
    if s == [] then [] else [if IsSafe(s[0]) then s[0] else UNDERSCORE] + SafeFile(s[1..])
  }

  /** `safeFile` leaves a string alone exactly when it is already safe. */
  lemma SafeFileIdentity(s: Bytes)
    ensures SafeFile(s) == s <==> AllSafe(s)
  {
    if AllSafe(s) {
      assert forall i :: 0 <= i < |s| ==> SafeFile(s)[i] == s[i];
    }
  }

  /** Sanitising twice is sanitising once. */
  lemma SafeFileIdempotent(s: Bytes)
    ensures SafeFile(SafeFile(s)) == SafeFile(s)
  {
    SafeFileIdentity(SafeFile(s));
  }

  /** `safeFile` is not injective: replacing any unsafe byte by '_' gives a
      different identifier with the same file name. */
  lemma SafeFileCollides(s: Bytes, i: nat)
    requires i < |s| && !IsSafe(s[i])
    ensures s[i := UNDERSCORE] != s
    ensures SafeFile(s[i := UNDERSCORE]) == SafeFile(s)
  {
    var t := s[i := UNDERSCORE];
    assert t[i] != s[i];
    assert forall j :: 0 <= j < |s| ==> SafeFile(t)[j] == SafeFile(s)[j];
  }
}
