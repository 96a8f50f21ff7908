/** `snprintf` against the standard, from the format string to the bytes in the buffer. */
module SnprintfResult {
  import opened Bytes
  import opened OutputGadget
  import opened FormatParse
  import opened FormatMeaning
  import opened FormatOutput
  import opened FormatProof

  /** For every format spelled by the grammar, every matching argument list within the limits and
      every buffer: the value returned is the length of the text ISO C11 prescribes, whatever the
      size of the buffer, exactly when an `int` can hold it; and the buffer holds the front of that
      text, cut so that a NUL still fits, the NUL, and beyond `n` what it held before (sections
      7.21.6.1 and 7.21.6.5). A size beyond INT_MAX is taken for INT_MAX. */
  method Snprintf(s: array<char>, n: uint16, format: CString, args: seq<Arg>, ghost items: seq<Item>)
    returns (r: int)
    requires (if n < 32767 then n else 32767) <= s.Length
    requires AllItems(items) && AllPrescribed(items) && format == SpellAll(items)
    requires AllArgsMatch(items, args) && AllWithinLimits(items, args)
    modifies s
    ensures r == |MeaningAll(items, args)| <==> |MeaningAll(items, args)| <= 32767
    ensures var m := if n < 32767 then n else 32767; s[m..] == old(s[m..])
    ensures var text, m := MeaningAll(items, args), if n < 32767 then n else 32767;
            |text| < 0x1_0000 && m > 0 ==>
              var k := if |text| < m then |text| else m - 1;
              s[..k] == text[..k] && s[k] == '\0'
  {
    hide Render, Terminated, Closed, SpellAll, MeaningAll, AllItems, AllPrescribed, AllArgsMatch, AllWithinLimits;
    FormatIsC11(items, args);
    ghost var before, text, m := s[..], MeaningAll(items, args), Min(n, MAX_BUFFER);
    TerminatedIsTruncated(before, m, text);
    ReturnIff(text);
    hide Int16;
    r := Vsnprintf(s, n, format, args);
    ghost var after := s[..];
    if |text| < 0x1_0000 && m > 0 {
      assert after == Terminated(before, m, text);
      var k := Min(m - 1, |text|);
      assert s[..k] == after[..k] && s[k] == after[k];
    }
  }
}
