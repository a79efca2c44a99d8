/** The text cleaner of src/utils/text_cleaner.hpp: fullwidth-to-halfwidth
    conversion, whitespace collapsing, trimming and control-byte
    filtering. */
module TextCleaner {
  import opened Bytes
  import StringUtils

  // ---------------------------------------------------------------------
  // The fullwidth table
  // ---------------------------------------------------------------------

  /** The `full_to_half` table: the ASCII byte a three-byte UTF-8 key maps
      to. The keys are seven CJK punctuation marks (U+3000 ideographic
      space, U+3001, U+3002, U+300A, U+300B, U+3010, U+3011) and the
      fullwidth forms U+FF01..U+FF5E except U+FF0E, U+FF0F, U+FF3B and
      U+FF3D. */
  function HalfwidthOf(a: byte, b: byte, c: byte): (r: Option<byte>)
    ensures r.Some? ==> 0x20 <= r.value <= 0x7E
  {
    if a == 0xE3 && b == 0x80 then
      if c == 0x80 then Some(0x20)
      else if c == 0x81 || c == 0x82 then Some(if c == 0x81 then 0x2C else 0x2E)
      else if c == 0x8A then Some(0x3C)
      else if c == 0x8B then Some(0x3E)
      else if c == 0x90 then Some(0x5B)
      else if c == 0x91 then Some(0x5D)
      else None
    else if a == 0xEF && b == 0xBC && 0x81 <= c <= 0xBF
            && c != 0x8E && c != 0x8F && c != 0xBB && c != 0xBD then
      Some(c - 0x60)
    else if a == 0xEF && b == 0xBD && 0x80 <= c <= 0x9E then
      Some(c - 0x20)
    else None
  }

  /** The code point a three-byte UTF-8 sequence encodes. */
  function CodePoint3(a: byte, b: byte, c: byte): int {
    (a & 0x0F) as int * 0x1000 + (b & 0x3F) as int * 0x40 + (c & 0x3F) as int
  }

  /** On a well-formed three-byte sequence starting with 0xEF, the table
      maps exactly the fullwidth forms U+FF01..U+FF5E other than U+FF0E,
      U+FF0F, U+FF3B and U+FF3D, each to its code point minus 0xFEE0 (the
      ASCII character it is the wide form of). */
  lemma {:induction false} FullwidthFormsShift(b: byte, c: byte)
    requires (b & 0xC0) == 0x80 && (c & 0xC0) == 0x80
    ensures var cp := CodePoint3(0xEF, b, c);
      HalfwidthOf(0xEF, b, c).Some? <==>
        (0xFF01 <= cp <= 0xFF5E && cp != 0xFF0E && cp != 0xFF0F && cp != 0xFF3B && cp != 0xFF3D)
    ensures HalfwidthOf(0xEF, b, c).Some? ==>
      HalfwidthOf(0xEF, b, c).value as int == CodePoint3(0xEF, b, c) - 0xFEE0
  {
    var cp := CodePoint3(0xEF, b, c);
    assert (0xEF as byte & 0x0F) as int == 0x0F;
    assert (b & 0x3F) as int == b as int - 0x80;
    assert (c & 0x3F) as int == c as int - 0x80;
    assert cp == 0xF000 + (b as int - 0x80) * 0x40 + (c as int - 0x80);
    if b == 0xBC {
      assert cp == 0xFF00 + (c as int - 0x80);
      if HalfwidthOf(0xEF, b, c).Some? {
        assert (c - 0x60) as int == c as int - 0x60;
      }
    } else if b == 0xBD {
      assert cp == 0xFF40 + (c as int - 0x80);
      if HalfwidthOf(0xEF, b, c).Some? {
        assert (c - 0x20) as int == c as int - 0x20;
      }
    } else if b < 0xBC {
      assert cp < 0xFF00;
    } else {
      assert cp >= 0xFF80;
    }
  }

  /** Bytes copied as one unit when no key matches: 4 for `11110xxx` and
      above, 3 for `1110xxxx`, 2 for `110xxxxx`, otherwise 1. */
  function CopyLength(ch: byte): (n: nat)
    ensures 1 <= n <= 4
  {
    if (ch & 0xF0) == 0xF0 then 4
    else if (ch & 0xE0) == 0xE0 then 3
    else if (ch & 0xC0) == 0xC0 then 2
    else 1
  }

  /** The cleaner's unit length agrees with the one `split_utf8` uses on
      every leading byte except 0xF8..0xFF, which the cleaner copies four
      bytes at a time and `split_utf8` one byte at a time. */
  lemma {:induction false} CopyLengthVersusLeadLength(ch: byte)
    requires ch >= 0x80
    ensures CopyLength(ch) == StringUtils.LeadLength(ch) <==> ch < 0xF8
  {
  }

  // ---------------------------------------------------------------------
  // _fullwidth_to_halfwidth
  // ---------------------------------------------------------------------

  /** The result of `_fullwidth_to_halfwidth`, as a specification: ASCII
      bytes are kept, a key of the table with at least three bytes left is
      replaced by its value, anything else is copied one UTF-8 unit at a
      time (clipped at the end of the input). */
  function Halfwidth(s: seq<byte>): (r: seq<byte>)
    ensures |r| <= |s|
    decreases |s|
  {
    if s == [] then []
    else if s[0] < 0x80 then [s[0]] + Halfwidth(s[1..])
    else if |s| > 2 && HalfwidthOf(s[0], s[1], s[2]).Some? then
      [HalfwidthOf(s[0], s[1], s[2]).value] + Halfwidth(s[3..])
    else
      var n := Min(CopyLength(s[0]), |s|);
      s[..n] + Halfwidth(s[n..])
  }

  /** A key of the table starts at `i`. */
  predicate KeyAt(s: seq<byte>, i: nat) {
    i + 2 < |s| && HalfwidthOf(s[i], s[i + 1], s[i + 2]).Some?
  }

  /** Text in which no key of the table occurs is left unchanged. */
  lemma {:induction false} HalfwidthNoKey(s: seq<byte>)
    requires forall i :: 0 <= i < |s| ==> !KeyAt(s, i)
    ensures Halfwidth(s) == s
    decreases |s|
  {
    if s != [] {
      var n := if s[0] < 0x80 then 1 else Min(CopyLength(s[0]), |s|);
      NoKeyFront(s, n);
      HalfwidthNoKey(s[n..]);
      assert s == s[..n] + s[n..];
    }
  }

  /** With no key anywhere, the first unit is copied and the remainder
      has no key either. */
  lemma NoKeyFront(s: seq<byte>, n: nat)
    requires forall i :: 0 <= i < |s| ==> !KeyAt(s, i)
    requires s != [] && n == if s[0] < 0x80 then 1 else Min(CopyLength(s[0]), |s|)
    ensures n <= |s| && Halfwidth(s) == s[..n] + Halfwidth(s[n..])
    ensures forall i :: 0 <= i < |s[n..]| ==> !KeyAt(s[n..], i)
  {
    assert !KeyAt(s, 0);
    if s[0] < 0x80 {
      assert s[..1] == [s[0]];
    } else {
      HalfwidthCopyFront(s);
    }
    NoKeyDrop(s, n);
  }

  /** A suffix of text without keys has no key. */
  lemma NoKeyDrop(s: seq<byte>, n: nat)
    requires forall i :: 0 <= i < |s| ==> !KeyAt(s, i)
    requires n <= |s|
    ensures forall i :: 0 <= i < |s[n..]| ==> !KeyAt(s[n..], i)
  {
    forall i | 0 <= i < |s[n..]| ensures !KeyAt(s[n..], i) {
      assert !KeyAt(s, i + n);
      assert s[n..][i] == s[i + n];
      if i + 2 < |s[n..]| {
        assert s[n..][i + 1] == s[i + n + 1] && s[n..][i + 2] == s[i + n + 2];
      }
    }
  }

  /** A converted string is never longer than the input (see the
      ensures of `Halfwidth`); it is exactly as long precisely when nothing
      was replaced, since each replacement turns three bytes into one. */
  lemma {:induction false} HalfwidthSameLength(s: seq<byte>)
    ensures |Halfwidth(s)| == |s| <==> Halfwidth(s) == s
    decreases |s|
  {
    if s != [] {
      if s[0] < 0x80 {
        HalfwidthSameLength(s[1..]);
      } else if |s| > 2 && HalfwidthOf(s[0], s[1], s[2]).Some? {
        assert |Halfwidth(s)| <= |s| - 2;
      } else {
        var n := Min(CopyLength(s[0]), |s|);
        HalfwidthSameLength(s[n..]);
        assert s == s[..n] + s[n..];
      }
    }
  }

  /** How many keys the `_fullwidth_to_halfwidth` walk replaces. */
  function Replacements(s: seq<byte>): nat
    decreases |s|
  {
    if s == [] then 0
    else if s[0] < 0x80 then Replacements(s[1..])
    else if |s| > 2 && HalfwidthOf(s[0], s[1], s[2]).Some? then 1 + Replacements(s[3..])
    else Replacements(s[Min(CopyLength(s[0]), |s|)..])
  }

  /** Each replacement turns three bytes into one; every other byte is
      copied. */
  lemma {:induction false} HalfwidthLength(s: seq<byte>)
    ensures |Halfwidth(s)| == |s| - 2 * Replacements(s)
    decreases |s|
  {
    if s != [] {
      if s[0] < 0x80 {
        HalfwidthLength(s[1..]);
      } else if |s| > 2 && HalfwidthOf(s[0], s[1], s[2]).Some? {
        HalfwidthLength(s[3..]);
      } else {
        HalfwidthLength(s[Min(CopyLength(s[0]), |s|)..]);
      }
    }
  }

  /** A three-byte unit at the front of the input: a key becomes its
      value, any other three-byte character is copied. */
  lemma {:induction false} HalfwidthUnit3(c: seq<byte>, rest: seq<byte>)
    requires |c| == 3 && c[0] >= 0x80
    requires HalfwidthOf(c[0], c[1], c[2]).Some? || CopyLength(c[0]) == 3
    ensures Halfwidth(c + rest) ==
      (if HalfwidthOf(c[0], c[1], c[2]).Some? then [HalfwidthOf(c[0], c[1], c[2]).value] else c)
      + Halfwidth(rest)
  {
    var s := c + rest;
    assert s[0] == c[0] && s[1] == c[1] && s[2] == c[2];
    assert s[3..] == rest;
    assert s[..3] == c;
  }

  /** `_fullwidth_to_halfwidth`: the table walk. */
  method FullwidthToHalfwidth(input: seq<byte>) returns (result: seq<byte>)
    ensures result == Halfwidth(input)
  {
    result := [];
    var i := 0;
    assert input[0..] == input;
    while i < |input|
      invariant result + Halfwidth(input[Min(i, |input|)..]) == Halfwidth(input)
      decreases |input| - i
    {
      var ch := input[i];
      if ch < 128 {
        HalfwidthStepAscii(result, input, i);
        result := result + [input[i]];
        i := i + 1;
      } else {
        var matched := false;
        if i + 2 < |input| {
          var half := HalfwidthOf(input[i], input[i + 1], input[i + 2]);
          if half.Some? {
            HalfwidthStepKey(result, input, i);
            result := result + [half.value];
            i := i + 3;
            matched := true;
          }
        }
        if !matched {
          var charLen := CopyLength(ch);
          var n := Min(charLen, |input| - i);
          HalfwidthStepCopy(result, input, i, n, charLen);
          result := result + input[i..i + n];
          i := i + charLen;
        }
      }
    }
    assert input[|input|..] == [];
  }

  /** The loop at `i` on an ASCII byte: the byte is kept. */
  lemma {:induction false} HalfwidthStepAscii(result: seq<byte>, input: seq<byte>, i: nat)
    requires i < |input| && input[i] < 0x80
    requires result + Halfwidth(input[Min(i, |input|)..]) == Halfwidth(input)
    ensures (result + [input[i]]) + Halfwidth(input[Min(i + 1, |input|)..]) == Halfwidth(input)
  {
    assert Min(i, |input|) == i;
    var after := Halfwidth(input[i + 1..]);
    assert Halfwidth(input[i..]) == [input[i]] + after by {
      var s := input[i..];
      assert s[0] == input[i];
      assert s[1..] == input[i + 1..];
    }
    StringUtils.ConcatAssoc(result, [input[i]], after);
  }

  /** The loop at `i` on a key of the table: its value is emitted and
      three bytes are consumed. */
  lemma {:induction false} HalfwidthStepKey(result: seq<byte>, input: seq<byte>, i: nat)
    requires i < |input| && input[i] >= 0x80 && KeyAt(input, i)
    requires result + Halfwidth(input[Min(i, |input|)..]) == Halfwidth(input)
    ensures (result + [HalfwidthOf(input[i], input[i + 1], input[i + 2]).value])
            + Halfwidth(input[Min(i + 3, |input|)..]) == Halfwidth(input)
  {
    assert Min(i, |input|) == i;
    var v := HalfwidthOf(input[i], input[i + 1], input[i + 2]).value;
    var after := Halfwidth(input[i + 3..]);
    assert Halfwidth(input[i..]) == [v] + after by {
      var s := input[i..];
      assert s[0] == input[i] && s[1] == input[i + 1] && s[2] == input[i + 2];
      assert s[3..] == input[i + 3..];
    }
    StringUtils.ConcatAssoc(result, [v], after);
  }

  /** The loop at `i` on any other non-ASCII byte: one unit of `n`
      bytes is copied (clipped at the end of the input). */
  lemma HalfwidthStepCopy(result: seq<byte>, input: seq<byte>, i: nat, n: nat, charLen: nat)
    requires i < |input| && input[i] >= 0x80 && !KeyAt(input, i)
    requires charLen == CopyLength(input[i]) && n == Min(charLen, |input| - i)
    requires result + Halfwidth(input[Min(i, |input|)..]) == Halfwidth(input)
    ensures (result + input[i..i + n]) + Halfwidth(input[Min(i + charLen, |input|)..]) == Halfwidth(input)
  {
    assert Min(i, |input|) == i;
    HalfwidthCopyUnitAt(result, input, i, n);
    assert input[Min(i + charLen, |input|)..] == input[i + n..] by {
      assert Min(i + charLen, |input|) == i + n;
    }
  }

  lemma {:induction false} HalfwidthCopyUnitAt(result: seq<byte>, input: seq<byte>, i: nat, n: nat)
    requires i < |input| && input[i] >= 0x80 && !KeyAt(input, i)
    requires n == Min(CopyLength(input[i]), |input| - i)
    requires result + Halfwidth(input[i..]) == Halfwidth(input)
    ensures (result + input[i..i + n]) + Halfwidth(input[i + n..]) == Halfwidth(input)
  {
    var c, after := input[i..i + n], Halfwidth(input[i + n..]);
    assert Halfwidth(input[i..]) == c + after by {
      var s := input[i..];
      assert s[0] == input[i];
      if |s| > 2 {
        assert s[1] == input[i + 1] && s[2] == input[i + 2];
      }
      HalfwidthCopyFront(s);
      assert s[..n] == c;
      assert s[n..] == input[i + n..];
    }
    StringUtils.ConcatAssoc(result, c, after);
  }

  /** Input that starts with a non-ASCII byte and no key: one unit is
      copied. */
  lemma {:induction false} HalfwidthCopyFront(s: seq<byte>)
    requires s != [] && s[0] >= 0x80
    requires !(|s| > 2 && HalfwidthOf(s[0], s[1], s[2]).Some?)
    ensures Halfwidth(s) == s[..Min(CopyLength(s[0]), |s|)] + Halfwidth(s[Min(CopyLength(s[0]), |s|)..])
  {
  }

  // ---------------------------------------------------------------------
  // Step 1: std::regex_replace(text, \s+, " ")
  // ---------------------------------------------------------------------

  /** Every maximal run of whitespace becomes one space. */
  function Collapse(s: seq<byte>): (r: seq<byte>)
    ensures |r| <= |s|
    ensures r != [] <==> s != []
    ensures r != [] ==> (IsSpace(r[0]) <==> IsSpace(s[0]))
    ensures Collapsed(r)
    decreases |s|
  {
    if s == [] then []
    else if IsSpace(s[0]) then
      var n := StringUtils.LeadingSpaces(s);
      [0x20] + Collapse(s[n..])
    else [s[0]] + Collapse(s[1..])
  }

  /** Every whitespace byte is a space and no two are adjacent. */
  predicate Collapsed(s: seq<byte>) {
    (forall i :: 0 <= i < |s| && IsSpace(s[i]) ==> s[i] == 0x20) &&
    (forall i :: 0 < i < |s| && IsSpace(s[i]) ==> !IsSpace(s[i - 1]))
  }

  /** Collapsing keeps every non-whitespace byte, in order. */
  lemma {:induction false} CollapseKeepsNonSpace(s: seq<byte>)
    ensures NonSpace(Collapse(s)) == NonSpace(s)
    decreases |s|
  {
    if s != [] {
      if IsSpace(s[0]) {
        var n := StringUtils.LeadingSpaces(s);
        CollapseKeepsNonSpace(s[n..]);
        assert s == s[..n] + s[n..];
        NonSpaceAppend(s[..n], s[n..]);
        NonSpaceOfSpaces(s[..n]);
        assert NonSpace([0x20] + Collapse(s[n..])) == NonSpace(Collapse(s[n..]));
      } else {
        CollapseKeepsNonSpace(s[1..]);
      }
    }
  }

  lemma {:induction false} NonSpaceOfSpaces(s: seq<byte>)
    requires AllSpace(s)
    ensures NonSpace(s) == []
  {
    if s != [] {
      NonSpaceOfSpaces(s[1..]);
    }
  }

  /** A collapsed string is its own collapse, so collapsing is idempotent. */
  lemma {:induction false} CollapseFixpoint(s: seq<byte>)
    requires Collapsed(s)
    ensures Collapse(s) == s
    decreases |s|
  {
    if s != [] {
      var t := s[1..];
      CollapsedTail(s);
      CollapseFixpoint(t);
      if IsSpace(s[0]) {
        SingleLeadingSpace(s);
        assert Collapse(s) == [0x20] + Collapse(t);
        assert s[0] == 0x20;
      } else {
        assert Collapse(s) == [s[0]] + Collapse(t);
      }
      assert s == [s[0]] + t;
    }
  }

  lemma CollapsedTail(s: seq<byte>)
    requires s != [] && Collapsed(s)
    ensures Collapsed(s[1..])
  {
    forall i | 0 < i < |s[1..]| && IsSpace(s[1..][i]) ensures !IsSpace(s[1..][i - 1]) {
      assert s[1..][i] == s[i + 1] && s[1..][i - 1] == s[i];
    }
  }

  lemma SingleLeadingSpace(s: seq<byte>)
    requires s != [] && IsSpace(s[0]) && Collapsed(s)
    ensures StringUtils.LeadingSpaces(s) == 1
  {
    if |s| > 1 {
      assert !IsSpace(s[1]);
    }
  }

  lemma {:induction false} CollapseIdempotent(s: seq<byte>)
    ensures Collapse(Collapse(s)) == Collapse(s)
  {
    CollapseFixpoint(Collapse(s));
  }

  /** A run of whitespace of any length and kind between two pieces of
      text becomes exactly one space, and each piece collapses on its own:
      words stay separated, by a single space. */
  lemma {:induction false} CollapseSeparates(x: seq<byte>, w: seq<byte>, y: seq<byte>)
    requires x != [] ==> !IsSpace(x[|x| - 1])
    requires w != [] && AllSpace(w)
    requires y != [] ==> !IsSpace(y[0])
    ensures Collapse(x + w + y) == Collapse(x) + [0x20] + Collapse(y)
  {
    calc {
      Collapse(x + w + y);
      { StringUtils.ConcatAssoc(x, w, y); }
      Collapse(x + (w + y));
      { CollapseAppend(x, w + y); }
      Collapse(x) + Collapse(w + y);
      { CollapseRun(w, y); }
      Collapse(x) + ([0x20] + Collapse(y));
      { StringUtils.ConcatAssoc(Collapse(x), [0x20], Collapse(y)); }
      Collapse(x) + [0x20] + Collapse(y);
    }
  }

  /** Collapsing splits after a byte that is not whitespace. */
  lemma {:induction false} CollapseAppend(x: seq<byte>, y: seq<byte>)
    requires x != [] ==> !IsSpace(x[|x| - 1])
    ensures Collapse(x + y) == Collapse(x) + Collapse(y)
    decreases |x|
  {
    if x == [] {
      assert x + y == y;
    } else if IsSpace(x[0]) {
      var n := StringUtils.LeadingSpaces(x);
      LeadingSpacesAppend(x, y);
      assert (x + y)[n..] == x[n..] + y;
      CollapseAppend(x[n..], y);
      StringUtils.ConcatAssoc([0x20], Collapse(x[n..]), Collapse(y));
    } else {
      assert (x + y)[1..] == x[1..] + y;
      CollapseAppend(x[1..], y);
      StringUtils.ConcatAssoc([x[0]], Collapse(x[1..]), Collapse(y));
    }
  }

  lemma LeadingSpacesAppend(x: seq<byte>, y: seq<byte>)
    requires x != [] && !IsSpace(x[|x| - 1])
    ensures StringUtils.LeadingSpaces(x) < |x|
    ensures StringUtils.LeadingSpaces(x + y) == StringUtils.LeadingSpaces(x)
  {
    var n := StringUtils.LeadingSpaces(x);
    var m := StringUtils.LeadingSpaces(x + y);
    if n == |x| {
      IsSpaceAt(x, n, |x| - 1);
      assert false;
    }
    if m < n {
      IsSpaceAt(x, n, m);
      assert false;
    } else if m > n {
      IsSpaceAt(x + y, m, n);
      assert false;
    }
  }

  lemma IsSpaceAt(s: seq<byte>, m: nat, k: nat)
    requires k < m <= |s| && AllSpace(s[..m])
    ensures IsSpace(s[k])
  {
    assert s[..m][k] == s[k];
  }

  /** A whole run of whitespace in front of a non-whitespace byte, or of
      the end, becomes one space. */
  lemma CollapseRun(w: seq<byte>, y: seq<byte>)
    requires w != [] && AllSpace(w)
    requires y != [] ==> !IsSpace(y[0])
    ensures Collapse(w + y) == [0x20] + Collapse(y)
  {
    var s := w + y;
    assert IsSpace(s[0]) by { assert s[0] == w[0]; }
    assert StringUtils.LeadingSpaces(s) == |w| by {
      LeadingRun(w, y);
    }
    assert s[|w|..] == y;
    assert Collapse(s) == [0x20] + Collapse(s[|w|..]);
  }

  lemma LeadingRun(w: seq<byte>, y: seq<byte>)
    requires AllSpace(w)
    requires y != [] ==> !IsSpace(y[0])
    ensures StringUtils.LeadingSpaces(w + y) == |w|
  {
    var s := w + y;
    var m := StringUtils.LeadingSpaces(s);
    if m < |w| {
      assert false;
    } else if m > |w| {
      IsSpaceAt(s, m, |w|);
      assert false;
    }
  }

  // ---------------------------------------------------------------------
  // Step 3: the filter loop
  // ---------------------------------------------------------------------

  /** The filter's condition: a byte of value 32 or more, or `\n`, `\r`,
      `\t`. */
  predicate Kept(b: byte) {
    b >= 32 || b == 0x0A || b == 0x0D || b == 0x09
  }

  /** The bytes the filter keeps, in order. */
  function KeepOnly(s: seq<byte>): (r: seq<byte>)
    ensures |r| <= |s|
    ensures forall i :: 0 <= i < |r| ==> Kept(r[i])
  {
    if s == [] then []
    else if Kept(s[0]) then [s[0]] + KeepOnly(s[1..])
    else KeepOnly(s[1..])
  }

  lemma {:induction false} KeepOnlyAppend(a: seq<byte>, b: seq<byte>)
    ensures KeepOnly(a + b) == KeepOnly(a) + KeepOnly(b)
  {
    if a == [] {
      assert a + b == b;
    } else {
      assert (a + b)[1..] == a[1..] + b;
      KeepOnlyAppend(a[1..], b);
    }
  }

  /** Text whose every byte passes the filter is unchanged. */
  lemma {:induction false} KeepOnlyAll(s: seq<byte>)
    requires forall i :: 0 <= i < |s| ==> Kept(s[i])
    ensures KeepOnly(s) == s
  {
    if s != [] {
      KeepOnlyAll(s[1..]);
    }
  }

  /** Filtering and dropping whitespace can be done in either order. */
  lemma {:induction false} KeepOnlyNonSpace(s: seq<byte>)
    ensures NonSpace(KeepOnly(s)) == KeepOnly(NonSpace(s))
  {
    if s != [] {
      KeepOnlyNonSpace(s[1..]);
    }
  }

  /** The filter loop of `run`. */
  method FilterControl(trimmed: seq<byte>) returns (filtered: seq<byte>)
    ensures filtered == KeepOnly(trimmed)
  {
    filtered := [];
    for i := 0 to |trimmed|
      invariant filtered == KeepOnly(trimmed[..i])
    {
      var ch := trimmed[i];
      assert trimmed[..i + 1] == trimmed[..i] + [ch];
      KeepOnlyAppend(trimmed[..i], [ch]);
      if ch >= 32 || ch == 0x0A || ch == 0x0D || ch == 0x09 {
        filtered := filtered + [ch];
      }
    }
    assert trimmed[..|trimmed|] == trimmed;
  }

  // ---------------------------------------------------------------------
  // TextCleaner::run
  // ---------------------------------------------------------------------

  /** The result of `TextCleaner::run`, as a specification. */
  function CleanSpec(input: seq<byte>): seq<byte> {
    if input == [] then []
    else
      var text := Collapse(Halfwidth(input));
      if AllSpace(text) then [] else KeepOnly(StringUtils.Strip(text))
  }

  /** `TextCleaner::run`. */
  method Clean(input: seq<byte>) returns (out: seq<byte>)
    ensures out == CleanSpec(input)
  {
    if input == [] {
      return [];
    }
    var text := FullwidthToHalfwidth(input);
    text := Collapse(text);
    var begin := StringUtils.LeadingSpaces(text);
    if begin == |text| {
      return [];
    }
    var end := |text| - StringUtils.TrailingSpaces(text);
    StringUtils.StripProperties(text);
    StripBounds(text);
    var trimmed := text[begin..end];
    out := FilterControl(trimmed);
  }

  /** When some byte is not whitespace, the first non-whitespace byte
      comes before the end of the last one, and `strip` keeps the bytes
      between them. */
  lemma {:induction false} StripBounds(s: seq<byte>)
    requires StringUtils.LeadingSpaces(s) < |s|
    ensures !AllSpace(s)
    ensures StringUtils.LeadingSpaces(s) < |s| - StringUtils.TrailingSpaces(s)
    ensures StringUtils.Strip(s) == s[StringUtils.LeadingSpaces(s)..|s| - StringUtils.TrailingSpaces(s)]
  {
    var b := StringUtils.LeadingSpaces(s);
    StringUtils.NonSpaceBeforeTrailing(s, b);
  }

  /** What `run` guarantees: empty input, and input that is all
      whitespace once converted (an ideographic space U+3000 converts to a
      space), give the empty string; the output is never longer than the
      input; every output byte is at least 32 (the collapse already turned
      `\n`, `\r` and `\t` into spaces); and no non-whitespace byte of the
      converted text is lost except the control bytes the filter drops. */
  lemma {:induction false} CleanProperties(input: seq<byte>)
    ensures input == [] ==> CleanSpec(input) == []
    ensures AllSpace(Halfwidth(input)) ==> CleanSpec(input) == []
    ensures AllSpace(input) ==> CleanSpec(input) == []
    ensures |CleanSpec(input)| <= |input|
    ensures forall i :: 0 <= i < |CleanSpec(input)| ==> CleanSpec(input)[i] >= 32
    ensures input != [] ==> NonSpace(CleanSpec(input)) == KeepOnly(NonSpace(Halfwidth(input)))
  {
    if input != [] {
      var h := Halfwidth(input);
      var text := Collapse(h);
      CollapseKeepsNonSpace(h);
      if AllSpace(input) {
        SpacesHaveNoKey(input);
        HalfwidthNoKey(input);
      }
      if AllSpace(h) {
        NonSpaceOfSpaces(h);
        NoNonSpaceIsAllSpace(text);
      }
      if AllSpace(text) {
        NonSpaceOfSpaces(text);
      } else {
        var t := StringUtils.Strip(text);
        StringUtils.StripProperties(text);
        StripKeepsNonSpace(text);
        KeepOnlyNonSpace(t);
        StripOfCollapsed(text);
        KeepOnlyNoLineBreaks(t);
      }
    }
  }

  /** A lone ideographic space (U+3000) cleans to the empty string. */
  lemma {:induction false} CleanIdeographicSpace()
    ensures CleanSpec([0xE3, 0x80, 0x80]) == []
  {
    var s: seq<byte> := [0xE3, 0x80, 0x80];
    assert Halfwidth(s) == [0x20] by {
      assert HalfwidthOf(0xE3, 0x80, 0x80) == Some(0x20);
      assert s[3..] == [];
    }
    assert Collapse([0x20]) == [0x20] by {
      assert StringUtils.LeadingSpaces([0x20]) == 1;
      assert [0x20][1..] == [];
    }
  }

  /** Whitespace bytes are below 0x80, so no key starts among them. */
  lemma {:induction false} SpacesHaveNoKey(s: seq<byte>)
    requires AllSpace(s)
    ensures forall i :: 0 <= i < |s| ==> !KeyAt(s, i)
  {
  }

  lemma {:induction false} NoNonSpaceIsAllSpace(s: seq<byte>)
    requires NonSpace(s) == []
    ensures AllSpace(s)
  {
    if s != [] {
      NoNonSpaceIsAllSpace(s[1..]);
    }
  }

  /** Trimming removes whitespace only. */
  lemma {:induction false} StripKeepsNonSpace(s: seq<byte>)
    ensures NonSpace(StringUtils.Strip(s)) == NonSpace(s)
  {
    var b := StringUtils.LeadingSpaces(s);
    var e := |s| - StringUtils.TrailingSpaces(s);
    if b < |s| {
      StripBounds(s);
      StringUtils.ThreeSlices(s, b, e);
      NonSpaceAround(s[..b], s[b..e], s[e..]);
    } else {
      assert s[..b] == s;
      NonSpaceOfSpaces(s);
      StringUtils.StripProperties(s);
    }
  }

  /** Whitespace on both sides adds no non-whitespace byte. */
  lemma NonSpaceAround(x: seq<byte>, y: seq<byte>, z: seq<byte>)
    requires AllSpace(x) && AllSpace(z)
    ensures NonSpace(x + y + z) == NonSpace(y)
  {
    NonSpaceAppend(x + y, z);
    NonSpaceAppend(x, y);
    NonSpaceOfSpaces(x);
    NonSpaceOfSpaces(z);
  }

  /** Whitespace in the trimmed, collapsed text is a plain space. */
  lemma {:induction false} StripOfCollapsed(text: seq<byte>)
    requires Collapsed(text)
    ensures forall i :: 0 <= i < |StringUtils.Strip(text)| ==>
      StringUtils.Strip(text)[i] != 0x0A && StringUtils.Strip(text)[i] != 0x0D && StringUtils.Strip(text)[i] != 0x09
  {
    var b := StringUtils.LeadingSpaces(text);
    if b < |text| {
      StripBounds(text);
      var t := StringUtils.Strip(text);
      forall i | 0 <= i < |t| ensures t[i] != 0x0A && t[i] != 0x0D && t[i] != 0x09 {
        assert t[i] == text[b + i];
        assert IsSpace(text[b + i]) ==> text[b + i] == 0x20;
      }
    }
  }

  /** With no `\n`, `\r` or `\t` present, the filter keeps only bytes of
      value 32 or more. */
  lemma {:induction false} KeepOnlyNoLineBreaks(s: seq<byte>)
    requires forall i :: 0 <= i < |s| ==> s[i] != 0x0A && s[i] != 0x0D && s[i] != 0x09
    ensures forall i :: 0 <= i < |KeepOnly(s)| ==> KeepOnly(s)[i] >= 32
  {
    if s != [] {
      KeepOnlyNoLineBreaks(s[1..]);
    }
  }

  /** `m` is a run of three-byte characters none of which is a key. */
  predicate CopiedUnits(m: seq<byte>)
    decreases |m|
  {
    m == [] ||
    (|m| >= 3 && m[0] >= 0x80 && CopyLength(m[0]) == 3 && HalfwidthOf(m[0], m[1], m[2]).None?
     && CopiedUnits(m[3..]))
  }

  /** A run of three-byte characters that are not keys is copied. */
  lemma {:induction false} HalfwidthCopiesUnits(m: seq<byte>, rest: seq<byte>)
    requires CopiedUnits(m)
    ensures Halfwidth(m + rest) == m + Halfwidth(rest)
    decreases |m|
  {
    if m != [] {
      var c, t := m[..3], m[3..];
      HalfwidthCopiesUnit(m, rest);
      HalfwidthCopiesUnits(t, rest);
      assert c + (t + Halfwidth(rest)) == (c + t) + Halfwidth(rest);
    } else {
      assert m + rest == rest;
    }
  }

  /** The first character of such a run is copied. */
  lemma HalfwidthCopiesUnit(m: seq<byte>, rest: seq<byte>)
    requires CopiedUnits(m) && m != []
    ensures m == m[..3] + m[3..] && CopiedUnits(m[3..])
    ensures Halfwidth(m + rest) == m[..3] + Halfwidth(m[3..] + rest)
  {
    var c, t := m[..3], m[3..];
    assert c[0] == m[0] && c[1] == m[1] && c[2] == m[2];
    assert m + rest == c + (t + rest);
    HalfwidthUnit3(c, t + rest);
  }

  /** Fullwidth brackets and an ideographic full stop around a run of
      copied characters: `【…。】` becomes `[….]`. */
  lemma {:induction false} HalfwidthBracketed(m: seq<byte>)
    requires CopiedUnits(m)
    ensures Halfwidth([0xE3, 0x80, 0x90] + m + [0xE3, 0x80, 0x82, 0xE3, 0x80, 0x91])
         == [0x5B] + m + [0x2E, 0x5D]
  {
    var open: seq<byte> := [0xE3, 0x80, 0x90];
    var stop: seq<byte> := [0xE3, 0x80, 0x82];
    var close: seq<byte> := [0xE3, 0x80, 0x91];
    var tail := stop + close;
    assert Halfwidth(tail) == [0x2E, 0x5D] by {
      HalfwidthUnit3(close, []);
      HalfwidthUnit3(stop, close);
    }
    calc {
      Halfwidth(open + m + [0xE3, 0x80, 0x82, 0xE3, 0x80, 0x91]);
      { assert open + m + [0xE3, 0x80, 0x82, 0xE3, 0x80, 0x91] == open + (m + tail); }
      Halfwidth(open + (m + tail));
      { HalfwidthUnit3(open, m + tail); }
      [0x5B] + Halfwidth(m + tail);
      { HalfwidthCopiesUnits(m, tail); }
      [0x5B] + (m + [0x2E, 0x5D]);
      [0x5B] + m + [0x2E, 0x5D];
    }
  }

  /** The cleaner's own test, `【全角字符转半角字符。】` becoming
      `[全角字符转半角字符.]`, for any run of three-byte non-key characters
      between the brackets (the nine ideographs of the test have leading
      bytes 0xE5..0xE8): the brackets and the ideographic full stop are
      converted, and the collapse, trim and filter steps leave the result
      alone. */
  lemma {:induction false} CleanBracketed(m: seq<byte>)
    requires CopiedUnits(m)
    requires forall i :: 0 <= i < |m| ==> m[i] >= 0x80
    ensures CleanSpec([0xE3, 0x80, 0x90] + m + [0xE3, 0x80, 0x82, 0xE3, 0x80, 0x91])
         == [0x5B] + m + [0x2E, 0x5D]
  {
    var input := [0xE3, 0x80, 0x90] + m + [0xE3, 0x80, 0x82, 0xE3, 0x80, 0x91];
    var h := [0x5B] + m + [0x2E, 0x5D];
    HalfwidthBracketed(m);
    PlainBracketed(m);
    CleanLeavesAlone(input);
  }

  lemma {:induction false} PlainBracketed(m: seq<byte>)
    requires forall i :: 0 <= i < |m| ==> m[i] >= 0x80
    ensures Plain([0x5B] + m + [0x2E, 0x5D])
  {
    assert Plain(m);
    PlainAppend([0x5B], m);
    PlainAppend([0x5B] + m, [0x2E, 0x5D]);
  }

  /** No whitespace and no byte below 32. */
  predicate Plain(s: seq<byte>) {
    forall i :: 0 <= i < |s| ==> !IsSpace(s[i]) && s[i] >= 32
  }

  lemma {:induction false} PlainAppend(a: seq<byte>, b: seq<byte>)
    requires Plain(a) && Plain(b)
    ensures Plain(a + b)
  {
    forall i | 0 <= i < |a + b| ensures !IsSpace((a + b)[i]) && (a + b)[i] >= 32 {
      if i >= |a| {
        assert (a + b)[i] == b[i - |a|];
      }
    }
  }

  /** When the converted text has no whitespace and no control byte, the
      later steps leave it alone. */
  lemma {:induction false} CleanLeavesAlone(input: seq<byte>)
    requires input != []
    requires Plain(Halfwidth(input))
    ensures CleanSpec(input) == Halfwidth(input)
  {
    var h := Halfwidth(input);
    HalfwidthNonEmpty(input);
    CollapseFixpoint(h);
    StringUtils.StripUnchanged(h);
    KeepOnlyAll(h);
    assert !AllSpace(h) by { assert !IsSpace(h[0]); }
  }

  /** Two words of the converted text, with no whitespace or control byte
      in them, separated by any run of whitespace, come out of `run` as
      the two words joined by one space. */
  lemma {:induction false} CleanSeparatesWords(input: seq<byte>, x: seq<byte>, w: seq<byte>, y: seq<byte>)
    requires Halfwidth(input) == x + w + y
    requires x != [] && Plain(x) && y != [] && Plain(y)
    requires w != [] && AllSpace(w)
    ensures CleanSpec(input) == x + [0x20] + y
  {
    assert input != [];
    assert Collapse(Halfwidth(input)) == x + [0x20] + y by {
      CollapseSeparates(x, w, y);
      PlainCollapse(x);
      PlainCollapse(y);
    }
    JoinedWords(x, y);
  }

  lemma PlainCollapse(s: seq<byte>)
    requires Plain(s)
    ensures Collapse(s) == s
  {
    assert Collapsed(s);
    CollapseFixpoint(s);
  }

  /** Two words joined by one space are left alone by trim and filter. */
  lemma JoinedWords(x: seq<byte>, y: seq<byte>)
    requires x != [] && Plain(x) && y != [] && Plain(y)
    ensures !AllSpace(x + [0x20] + y)
    ensures KeepOnly(StringUtils.Strip(x + [0x20] + y)) == x + [0x20] + y
  {
    var t := x + [0x20] + y;
    assert t[0] == x[0];
    assert t[|t| - 1] == y[|y| - 1];
    StringUtils.StripUnchanged(t);
    forall i | 0 <= i < |t| ensures Kept(t[i]) {
      if i < |x| {
        assert t[i] == x[i];
      } else if i > |x| {
        assert t[i] == y[i - |x| - 1];
      }
    }
    KeepOnlyAll(t);
  }

  /** An ideographic space U+3000 between two letters converts to a space
      and is kept as the one space between them. */
  lemma {:induction false} CleanIdeographicSeparator()
    ensures CleanSpec([0x61, 0xE3, 0x80, 0x80, 0x62]) == [0x61, 0x20, 0x62]
  {
    var s: seq<byte> := [0x61, 0xE3, 0x80, 0x80, 0x62];
    assert Halfwidth(s) == [0x61, 0x20, 0x62] by {
      assert s[1..] == [0xE3, 0x80, 0x80, 0x62];
      assert s[1..][3..] == [0x62];
      assert HalfwidthOf(0xE3, 0x80, 0x80) == Some(0x20);
    }
    CleanSeparatesWords(s, [0x61], [0x20], [0x62]);
  }

  /** Non-empty input converts to non-empty text. */
  lemma {:induction false} HalfwidthNonEmpty(s: seq<byte>)
    requires s != []
    ensures Halfwidth(s) != []
  {
  }

  /** Filtering comes after trimming, so a control byte in front of a
      space leaves the space at the start: `"\x01 a"` cleans to `" a"`. */
  lemma {:induction false} CleanMayStartWithSpace()
    ensures CleanSpec([0x01, 0x20, 0x61]) == [0x20, 0x61]
  {
    var s: seq<byte> := [0x01, 0x20, 0x61];
    assert Halfwidth(s) == s by {
      assert s[1..] == [0x20, 0x61] && s[1..][1..] == [0x61];
    }
    assert Collapse(s) == s by {
      assert StringUtils.LeadingSpaces(s[1..]) == 1;
      assert s[1..][1..] == [0x61];
    }
    assert StringUtils.Strip(s) == s by {
      StringUtils.StripUnchanged(s);
    }
    assert !AllSpace(s) by { assert !IsSpace(s[2]); }
  }
}
