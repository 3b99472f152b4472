/**
 * The depth cap of `parseKey` as the source writes it: the loop index of a
 * Go `range` over a string is a BYTE offset, but the remainder is sliced out
 * of the key's RUNE slice at that offset. For keys whose characters all
 * encode as one UTF-8 byte the two agree; for other keys the final segment
 * starts at the wrong character, or the slice runs past the end and the
 * program panics.
 */
module RuneOffset {
  import opened Wrappers
  import opened KeyParser

  /** Number of bytes in the UTF-8 encoding of `c`. */
  function Utf8Width(c: char): (w: nat)
    ensures 1 <= w <= 4
    ensures w == 1 <==> c as int < 0x80
  {
    if c as int < 0x80 then 1
    else if c as int < 0x800 then 2
    else if c as int < 0x10000 then 3
    else 4
  }

  predicate IsAscii(s: string)
  {
    forall k :: 0 <= k < |s| ==> s[k] as int < 0x80
  }

  /** What the source's scanner can do: return segments, return an error, or panic. */
  datatype Outcome = Parsed(segs: seq<string>) | Rejected(error: ParseError) | SlicePanic

  /** The outcome of a scan that cannot panic. */
  function FromResult(r: Result<seq<string>, ParseError>): Outcome
  {
    match r
    case Ok(segs) => Parsed(segs)
    case Err(e) => Rejected(e)
  }

  /**
   * The scan loop with the character index `i` and the byte offset `off`
   * that Go's `range` reports for it.
   */
  function ScanAsWritten(key: string, i: nat, off: nat, maxDepth: int, st: ScanState): Outcome
    requires i <= |key|
    decreases |key| - i
  {
    if i == |key| then Parsed(st.keys + [st.cur])
    else
      var c := key[i];
      var next := off + Utf8Width(c);
      if c == '[' && !st.inBrackets then
        var keys := st.keys + [st.cur];
        if st.depth + 1 == maxDepth then
          if off <= |key| then Parsed(keys + [key[off..]]) else SlicePanic
        else ScanAsWritten(key, i + 1, next, maxDepth, ScanState(true, "", keys, st.depth + 1))
      else if c == ']' && st.inBrackets then
        ScanAsWritten(key, i + 1, next, maxDepth, st.(inBrackets := false))
      else if (c == '[' && st.inBrackets) || (c == ']' && !st.inBrackets) then
        Rejected(InvalidQS)
      else
        ScanAsWritten(key, i + 1, next, maxDepth, st.(cur := st.cur + [c]))
  }

  /** `parseKey` exactly as written, byte offset included. */
  function ParseKeyAsWritten(key: string, maxDepth: int): (r: Outcome)
    ensures IsAscii(key) ==> r == FromResult(ParseKey(key, maxDepth))
  {
    if IsAscii(key) then
      ScanAsciiAgrees(key, 0, maxDepth, Start);
      assert key[0..] == key;
      ScanAsWritten(key, 0, 0, maxDepth, Start)
    else ScanAsWritten(key, 0, 0, maxDepth, Start)
  }

  /** While every character read so far is one byte wide, offset and index coincide. */
  lemma {:induction false} ScanAsciiAgrees(key: string, i: nat, maxDepth: int, st: ScanState)
    requires i <= |key| && IsAscii(key)
    ensures ScanAsWritten(key, i, i, maxDepth, st) == FromResult(Scan(key[i..], maxDepth, st))
    decreases |key| - i
  {
    if i < |key| {
      assert key[i..][0] == key[i] && key[i..][1..] == key[i + 1..];
      var c := key[i];
      if c == '[' && !st.inBrackets {
        if st.depth + 1 != maxDepth {
          ScanAsciiAgrees(key, i + 1, maxDepth, ScanState(true, "", st.keys + [st.cur], st.depth + 1));
        }
      } else if c == ']' && st.inBrackets {
        ScanAsciiAgrees(key, i + 1, maxDepth, st.(inBrackets := false));
      } else if !((c == '[' && st.inBrackets) || (c == ']' && !st.inBrackets)) {
        ScanAsciiAgrees(key, i + 1, maxDepth, st.(cur := st.cur + [c]));
      }
    }
  }

  /** On ASCII keys the source's scanner computes `ParseKey` and never panics. */
  lemma AsciiAgrees(key: string, maxDepth: int)
    requires IsAscii(key)
    ensures ParseKeyAsWritten(key, maxDepth) == FromResult(ParseKey(key, maxDepth))
  {
    ScanAsciiAgrees(key, 0, maxDepth, Start);
    assert key[0..] == key;
  }

  /**
   * `é[b]` with depth 1: the `[` is character 1 but byte 2, so the source's
   * final segment is `b]` where the documented behaviour gives `[b]`.
   */
  lemma MisplacedRemainder()
    ensures ParseKeyAsWritten("\U{E9}[b]", 1) == Parsed(["\U{E9}", "b]"])
    ensures ParseKey("\U{E9}[b]", 1) == Ok(["\U{E9}", "[b]"])
  {
    var k := "\U{E9}[b]";
    assert Utf8Width(k[0]) == 2;
    assert "" + [k[0]] == "\U{E9}";
    assert ScanAsWritten(k, 0, 0, 1, Start) == ScanAsWritten(k, 1, 2, 1, ScanState(false, "\U{E9}", [], 0));
    assert [] + ["\U{E9}"] == ["\U{E9}"];
    assert k[2..] == "b]";
    assert ["\U{E9}"] + ["b]"] == ["\U{E9}", "b]"];
    assert k[1..] == "[b]";
    assert Scan(k, 1, Start) == Scan("[b]", 1, ScanState(false, "\U{E9}", [], 0));
    assert ["\U{E9}"] + ["[b]"] == ["\U{E9}", "[b]"];
  }

  /** `ééé[` with depth 1: the `[` is at byte 6 of a 4-rune key, so the slice panics. */
  lemma RemainderPastEnd()
    ensures ParseKeyAsWritten("\U{E9}\U{E9}\U{E9}[", 1) == SlicePanic
  {
    var k := "\U{E9}\U{E9}\U{E9}[";
    assert Utf8Width(k[0]) == 2 && Utf8Width(k[1]) == 2 && Utf8Width(k[2]) == 2;
    assert "" + [k[0]] == "\U{E9}";
    assert "\U{E9}" + [k[1]] == "\U{E9}\U{E9}";
    assert "\U{E9}\U{E9}" + [k[2]] == "\U{E9}\U{E9}\U{E9}";
    assert ScanAsWritten(k, 0, 0, 1, Start) == ScanAsWritten(k, 1, 2, 1, ScanState(false, "\U{E9}", [], 0));
    assert ScanAsWritten(k, 1, 2, 1, ScanState(false, "\U{E9}", [], 0))
        == ScanAsWritten(k, 2, 4, 1, ScanState(false, "\U{E9}\U{E9}", [], 0));
    assert ScanAsWritten(k, 2, 4, 1, ScanState(false, "\U{E9}\U{E9}", [], 0))
        == ScanAsWritten(k, 3, 6, 1, ScanState(false, "\U{E9}\U{E9}\U{E9}", [], 0));
  }
}
