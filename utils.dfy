/** Title truncation (`server/lib/utils.ts`). */
module Utils {
  import opened Common

  /** How many characters `substring(0, maxLength)` keeps of `s`. */
  function Kept(s: string, maxLength: int): (k: nat)
    ensures k <= |s|
  {
    if maxLength <= 0 then 0 else if maxLength < |s| then maxLength else |s|
  }

  /** `truncateString`, with the default limit of 5. */
  function Truncate(s: string, maxLength: int := 5): (r: string)
    ensures |s| <= maxLength ==> r == s
    ensures |s| > maxLength ==> |r| == Kept(s, maxLength) + 3 && r[|r| - 3..] == "..."
    ensures StartsWith(r, s[..Kept(s, maxLength)])
    ensures |r| <= Kept(s, maxLength) + 3
  {
    if |s| > maxLength then s[..Kept(s, maxLength)] + "..." else s
  }

  /** Truncating an already truncated string changes nothing. */
  lemma TruncateIdempotent(s: string, maxLength: int)
    ensures Truncate(Truncate(s, maxLength), maxLength) == Truncate(s, maxLength)
  {
    var r := Truncate(s, maxLength);
    if |s| > maxLength {
      assert r[..Kept(r, maxLength)] == s[..Kept(s, maxLength)];
    }
  }
}
