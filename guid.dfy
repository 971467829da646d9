/**
 * The GUID rule the commands validate identifiers with: five groups of
 * 8, 4, 4, 4 and 12 hexadecimal digits separated by hyphens, letters in
 * either case.
 */
module Guid {
  import Uri

  predicate IsHexDigit(c: char) {
    '0' <= c <= '9' || 'a' <= c <= 'f' || 'A' <= c <= 'F'
  }

  predicate IsHyphenPosition(i: int) {
    i == 8 || i == 13 || i == 18 || i == 23
  }

  /** A GUID consists of characters encodeURIComponent leaves as they are. */
  predicate IsValidGuid(s: string)
    ensures IsValidGuid(s) ==> forall i :: 0 <= i < |s| ==> Uri.IsUnreserved(s[i])
  {
    && |s| == 36
    && forall i :: 0 <= i < |s| ==> if IsHyphenPosition(i) then s[i] == '-' else IsHexDigit(s[i])
  }

  /** A GUID is made of characters encodeURIComponent leaves alone, so it is its own encoding. */
  lemma GuidEncodesToItself(s: string)
    requires IsValidGuid(s)
    ensures Uri.Encode(s) == s
    ensures forall i :: 0 <= i < |s| ==> s[i] != '\''
  {
    assert forall i :: 0 <= i < |s| ==> Uri.IsUnreserved(s[i]);
    Uri.EncodeIdentity(s);
    forall i | 0 <= i < |s| ensures s[i] != '\'' {
      if !IsHyphenPosition(i) { assert IsHexDigit(s[i]); }
    }
  }
}
