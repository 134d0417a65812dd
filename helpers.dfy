/** `truncate_text` from utils/helpers.py. */
module Helpers {
  import opened Common
  import opened Strings

  /**
   * Python's `text[:n]`: a non-negative bound is clamped to the length, a
   * negative one counts from the end.
   */
  function SlicePrefix(text: string, n: int): (r: string)
    ensures IsPrefix(r, text)
    ensures n >= 0 ==> |r| == (if n < |text| then n else |text|)
    ensures n < 0 ==> |r| == (if |text| + n > 0 then |text| + n else 0)
  {
    if n >= 0 then (if n < |text| then text[..n] else text)
    else if |text| + n > 0 then text[..|text| + n]
    else ""
  }

  /**
   * `truncate_text(text, max_length)`: `None` or an empty text give "",
   * a text no longer than the bound comes back unchanged, and a longer one
   * is cut to its `text[:max_length]` prefix followed by "...".
   */
  function TruncateText(text: Option<string>, maxLength: int): (r: string)
    ensures text.None? || text == Some("") ==> r == ""
    ensures text.Some? && |text.value| <= maxLength ==> r == text.value
    ensures text.Some? && text.value != "" && |text.value| > maxLength ==>
              |r| >= 3 && r[|r| - 3..] == "..." && IsPrefix(r[..|r| - 3], text.value)
    ensures text.Some? && |text.value| > maxLength >= 0 ==>
              |r| == maxLength + 3 && r[..maxLength] == text.value[..maxLength]
    ensures text.Some? && text.value != "" && maxLength < 0 ==>
              |r| == 3 + (if |text.value| + maxLength > 0 then |text.value| + maxLength else 0)
    ensures maxLength >= 0 ==> |r| <= maxLength + 3
  {
    match text
    case None => ""
    case Some(t) =>
      if t == "" then ""
      else if |t| > maxLength then SlicePrefix(t, maxLength) + "..."
      else t
  }
}
