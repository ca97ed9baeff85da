/** Strings as src/chromium/metrics/stats_table.cc copies and compares them in shared memory. */
module CStrings {
  /** A string as C code sees it: up to the first NUL character. */
  function CString(s: string): (text: string)
    ensures text <= s && '\0' !in text
    ensures |text| == |s| || s[|text|] == '\0'
  {
    if s == "" || s[0] == '\0' then "" else [s[0]] + CString(s[1..])
  }

  const UNKNOWN_NAME: string := "<unknown>"

  /** What `strlcpy` leaves in a buffer of the given size for a name; no name is stored as
      `<unknown>`. */
  function Stored(name: string, size: nat): string
    requires 0 < size
  {
    var text := CString(if name == "" then UNKNOWN_NAME else name);
    if |text| < size then text else text[..size - 1]
  }

  /** What `strlcpy` promises of a buffer: it holds the text up to its first NUL character, or as much of
      that as fits beside the final NUL. */
  predicate IsCopyOf(stored: string, source: string, size: nat) {
    && stored <= source && '\0' !in stored && |stored| < size
    && (|stored| + 1 == size || |stored| == |source| || source[|stored|] == '\0')
  }

  lemma StoredIsCopy(name: string, size: nat)
    requires 0 < size
    ensures IsCopyOf(Stored(name, size), if name == "" then "<unknown>" else name, size)
  {
  }
}
