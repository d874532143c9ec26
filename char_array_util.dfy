/**
 * Scans over character buffers (com.intellij.util.text.CharArrayUtil).
 *
 * The buffers are only read, so a `CharSequence` or `char[]` becomes a
 * `string` value; the `char[]` overloads of the source delegate to the
 * `CharSequence` ones and are therefore the same methods here. Every scan is a
 * loop, as in the source, and is proved against the property it promises.
 */
module CharArrayUtil {
  import opened Wrappers

  /** `pattern` occurs in `buffer` starting at index `i`. */
  predicate OccursAt(buffer: string, pattern: string, i: int)
  {
    0 <= i && i + |pattern| <= |buffer| && buffer[i..i + |pattern|] == pattern
  }

  /** The four characters `containsOnlyWhiteSpaces` accepts. */
  predicate IsWhiteSpace(c: char)
  {
    c == ' ' || c == '\t' || c == '\n' || c == '\r'
  }

  /** `isSuitable`: whether `c` is one of `chars`, by a linear scan. */
  method IsSuitable(chars: string, c: char) returns (r: bool)
    ensures r <==> c in chars
  {
    var i := 0;
    while i < |chars|
      invariant 0 <= i <= |chars|
      invariant c !in chars[..i]
    {
      if c == chars[i] {
        return true;
      }
      i := i + 1;
    }
    assert chars[..i] == chars;
    return false;
  }

  /**
   * `shiftForward`: skips forward over characters of `chars`. A negative
   * offset makes the source read outside the buffer, so it is excluded.
   */
  method ShiftForward(buffer: string, offset: int, chars: string) returns (r: int)
    requires 0 <= offset
    ensures offset <= r
    ensures offset >= |buffer| ==> r == offset
    ensures offset < |buffer| ==> r <= |buffer|
    ensures forall k :: offset <= k < r ==> buffer[k] in chars
    ensures r < |buffer| ==> buffer[r] !in chars
  {
    r := offset;
    while true
      invariant offset <= r
      invariant r == offset || r <= |buffer|
      invariant forall k :: offset <= k < r ==> buffer[k] in chars
      decreases |buffer| - r
    {
      if r >= |buffer| {
        break;
      }
      var suitable := IsSuitable(chars, buffer[r]);
      if !suitable {
        break;
      }
      r := r + 1;
    }
  }

  /**
   * `shiftForwardCarefully`: like `shiftForward`, but answers the index of the
   * LAST character of the run, so that the result always stays inside the
   * buffer; it does not move at all unless a second character follows.
   */
  method ShiftForwardCarefully(buffer: string, offset: int, chars: string) returns (r: int)
    requires offset + 1 >= |buffer| || 0 <= offset
    ensures offset + 1 >= |buffer| ==> r == offset
    ensures offset + 1 < |buffer| && buffer[offset] !in chars ==> r == offset
    ensures offset + 1 < |buffer| && buffer[offset] in chars ==>
              offset <= r < |buffer| &&
              (forall k :: offset <= k <= r ==> buffer[k] in chars) &&
              (r + 1 == |buffer| || buffer[r + 1] !in chars)
  {
    if offset + 1 >= |buffer| {
      return offset;
    }
    var first := IsSuitable(chars, buffer[offset]);
    if !first {
      return offset;
    }
    var o := offset + 1;
    while true
      invariant offset < o <= |buffer|
      invariant forall k :: offset <= k < o ==> buffer[k] in chars
      decreases |buffer| - o
    {
      if o >= |buffer| {
        return o - 1;
      }
      var suitable := IsSuitable(chars, buffer[o]);
      if !suitable {
        return o - 1;
      }
      o := o + 1;
    }
  }

  /**
   * `shiftBackward`: skips backward over characters of `chars`; answers -1
   * when the whole prefix up to `offset` consists of them. An offset at or
   * past the end makes the source read outside the buffer, so it is excluded.
   */
  method ShiftBackward(buffer: string, offset: int, chars: string) returns (r: int)
    requires offset < |buffer|
    ensures r <= offset
    ensures offset < 0 ==> r == offset
    ensures offset >= 0 ==> r >= -1
    ensures forall k :: r < k <= offset ==> buffer[k] in chars
    ensures r >= 0 ==> buffer[r] !in chars
  {
    r := offset;
    while true
      invariant r <= offset
      invariant offset >= 0 ==> r >= -1
      invariant offset < 0 ==> r == offset
      invariant forall k :: r < k <= offset ==> buffer[k] in chars
      decreases r + 1
    {
      if r < 0 {
        break;
      }
      var suitable := IsSuitable(chars, buffer[r]);
      if !suitable {
        break;
      }
      r := r - 1;
    }
  }

  /** `shiftForwardUntil`: skips forward up to the first character of `chars`. */
  method ShiftForwardUntil(buffer: string, offset: int, chars: string) returns (r: int)
    requires 0 <= offset
    ensures offset <= r
    ensures offset >= |buffer| ==> r == offset
    ensures offset < |buffer| ==> r <= |buffer|
    ensures forall k :: offset <= k < r ==> buffer[k] !in chars
    ensures r < |buffer| ==> buffer[r] in chars
  {
    r := offset;
    while true
      invariant offset <= r
      invariant r == offset || r <= |buffer|
      invariant forall k :: offset <= k < r ==> buffer[k] !in chars
      decreases |buffer| - r
    {
      if r >= |buffer| {
        break;
      }
      var suitable := IsSuitable(chars, buffer[r]);
      if suitable {
        break;
      }
      r := r + 1;
    }
  }

  /** `shiftBackwardUntil`: skips backward down to the last character of `chars`. */
  method ShiftBackwardUntil(buffer: string, offset: int, chars: string) returns (r: int)
    requires offset < |buffer|
    ensures r <= offset
    ensures offset < 0 ==> r == offset
    ensures offset >= 0 ==> r >= -1
    ensures forall k :: r < k <= offset ==> buffer[k] !in chars
    ensures r >= 0 ==> buffer[r] in chars
  {
    r := offset;
    while true
      invariant r <= offset
      invariant offset >= 0 ==> r >= -1
      invariant offset < 0 ==> r == offset
      invariant forall k :: r < k <= offset ==> buffer[k] !in chars
      decreases r + 1
    {
      if r < 0 {
        break;
      }
      var suitable := IsSuitable(chars, buffer[r]);
      if suitable {
        break;
      }
      r := r - 1;
    }
  }

  /** `regionMatches`: whether `s` occurs in `buffer` at `offset`. */
  method RegionMatches(buffer: string, offset: int, s: string) returns (r: bool)
    ensures r <==> 0 <= offset && offset + |s| <= |buffer| && buffer[offset..offset + |s|] == s
  {
    if offset + |s| > |buffer| {
      return false;
    }
    if offset < 0 {
      return false;
    }
    var i := 0;
    while i < |s|
      invariant 0 <= i <= |s|
      invariant buffer[offset..offset + i] == s[..i]
    {
      if buffer[offset + i] != s[i] {
        assert buffer[offset..offset + |s|][i] != s[i];
        return false;
      }
      i := i + 1;
    }
    assert s[..i] == s;
    return true;
  }

  /**
   * `indexOf`, as written: the search loop runs while `i < limit` with
   * `limit = |buffer| - |pattern|`, so the last start position, the one whose
   * match ends exactly at the end of the buffer, is never tried.
   */
  method IndexOf(buffer: string, pattern: string, fromIndex: int) returns (r: int)
    ensures r == -1 || (Max(fromIndex, 0) <= r < |buffer| - |pattern| && OccursAt(buffer, pattern, r))
    ensures r != -1 ==> forall i :: Max(fromIndex, 0) <= i < r ==> !OccursAt(buffer, pattern, i)
    ensures r == -1 ==> forall i :: Max(fromIndex, 0) <= i < |buffer| - |pattern| ==> !OccursAt(buffer, pattern, i)
  {
    r := SearchForward(buffer, pattern, fromIndex, |buffer| - |pattern|);
  }

  /**
   * `indexOf` as evidently intended: every start position up to and including
   * `|buffer| - |pattern|` is tried, so it finds the first occurrence at or
   * after `fromIndex`, wherever it lies.
   */
  method IndexOfCorrected(buffer: string, pattern: string, fromIndex: int) returns (r: int)
    ensures r == -1 || (Max(fromIndex, 0) <= r && OccursAt(buffer, pattern, r))
    ensures r != -1 ==> forall i :: Max(fromIndex, 0) <= i < r ==> !OccursAt(buffer, pattern, i)
    ensures r == -1 ==> forall i :: Max(fromIndex, 0) <= i ==> !OccursAt(buffer, pattern, i)
  {
    r := SearchForward(buffer, pattern, fromIndex, |buffer| - |pattern| + 1);
  }

  /** The search loop of `indexOf`: start positions from `max(fromIndex, 0)` below `limit`. */
  method SearchForward(buffer: string, pattern: string, fromIndex: int, limit: int) returns (r: int)
    requires limit <= |buffer| - |pattern| + 1
    ensures r == -1 || (Max(fromIndex, 0) <= r < limit && OccursAt(buffer, pattern, r))
    ensures r != -1 ==> forall i :: Max(fromIndex, 0) <= i < r ==> !OccursAt(buffer, pattern, i)
    ensures r == -1 ==> forall i :: Max(fromIndex, 0) <= i < limit ==> !OccursAt(buffer, pattern, i)
  {
    var i := Max(fromIndex, 0);
    label SearchLoop:
    while i < limit
      invariant Max(fromIndex, 0) <= i
      invariant forall k :: Max(fromIndex, 0) <= k < i ==> !OccursAt(buffer, pattern, k)
      decreases limit - i
    {
      var j := 0;
      while j < |pattern|
        invariant 0 <= j <= |pattern|
        invariant buffer[i..i + j] == pattern[..j]
      {
        if pattern[j] != buffer[i + j] {
          assert buffer[i..i + |pattern|][j] != pattern[j];
          i := i + 1;
          continue SearchLoop;
        }
        j := j + 1;
      }
      assert pattern[..j] == pattern;
      return i;
    }
    return -1;
  }

  /**
   * `lastIndexOf`: the last occurrence of `pattern` that starts at or before
   * `fromIndex`, or -1.
   */
  method LastIndexOf(buffer: string, pattern: string, fromIndex: int) returns (r: int)
    ensures r == -1 || (0 <= r <= fromIndex && OccursAt(buffer, pattern, r))
    ensures r != -1 ==> forall i :: r < i <= fromIndex ==> !OccursAt(buffer, pattern, i)
    ensures r == -1 ==> forall i :: i <= fromIndex ==> !OccursAt(buffer, pattern, i)
  {
    var end := |buffer| - |pattern|;
    var i := if fromIndex > end then end else fromIndex;
    label SearchLoop:
    while i >= 0
      invariant i <= fromIndex && i <= end
      invariant forall k :: i < k <= fromIndex ==> !OccursAt(buffer, pattern, k)
      decreases i + 1
    {
      var j := 0;
      while j < |pattern|
        invariant 0 <= j <= |pattern|
        invariant buffer[i..i + j] == pattern[..j]
      {
        if pattern[j] != buffer[i + j] {
          assert buffer[i..i + |pattern|][j] != pattern[j];
          i := i - 1;
          continue SearchLoop;
        }
        j := j + 1;
      }
      assert pattern[..j] == pattern;
      return i;
    }
    return -1;
  }

  /** `containsOnlyWhiteSpaces`: a null sequence counts as white space. */
  method ContainsOnlyWhiteSpaces(chars: Option<string>) returns (r: bool)
    ensures r <==> chars.None? || forall k :: 0 <= k < |chars.value| ==> IsWhiteSpace(chars.value[k])
  {
    if chars.None? {
      return true;
    }
    var s := chars.value;
    var i := 0;
    while i < |s|
      invariant 0 <= i <= |s|
      invariant forall k :: 0 <= k < i ==> IsWhiteSpace(s[k])
    {
      if !IsWhiteSpace(s[i]) {
        return false;
      }
      i := i + 1;
    }
    return true;
  }

  /**
   * The generic loop of `getChars`: copies `src` into `dst` from `dstOffset`
   * on and leaves the rest of `dst` alone. A copy that would leave `dst`
   * makes the source throw, so it is excluded.
   */
  method GetChars(src: string, dst: array<char>, dstOffset: int)
    requires |src| == 0 || (0 <= dstOffset && dstOffset + |src| <= dst.Length)
    modifies dst
    ensures forall k :: 0 <= k < dst.Length ==>
              dst[k] == if dstOffset <= k < dstOffset + |src| then src[k - dstOffset] else old(dst[k])
  {
    var i := 0;
    while i < |src|
      invariant 0 <= i <= |src|
      invariant forall k :: 0 <= k < dst.Length ==>
                  dst[k] == if dstOffset <= k < dstOffset + i then src[k - dstOffset] else old(dst[k])
    {
      dst[i + dstOffset] := src[i];
      i := i + 1;
    }
  }

  /**
   * The input that shows the off-by-one of `indexOf`: "b" occurs in "ab" at
   * index 1, the last possible start, and the as-written search answers -1,
   * while the corrected search answers 1.
   */
  method IndexOfMissesTrailingMatch() returns (asWritten: int, corrected: int)
    ensures OccursAt("ab", "b", 1)
    ensures asWritten == -1
    ensures corrected == 1
  {
    assert !OccursAt("ab", "b", 0) by {
      assert "ab"[0..1][0] == 'a';
    }
    assert "ab"[1..2] == "b";
    asWritten := IndexOf("ab", "b", 0);
    corrected := IndexOfCorrected("ab", "b", 0);
    assert corrected != -1 && corrected <= 1 by {
      assert OccursAt("ab", "b", 1);
    }
  }

  function Max(a: int, b: int): int
  {
    if a < b then b else a
  }
}
