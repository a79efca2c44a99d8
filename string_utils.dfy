/** The byte-string helpers of src/utils/string_utils.cpp: UTF-8 chunking,
    delimiter splitting, replace-all and whitespace stripping. */
module StringUtils {
  import opened Bytes

  // ---------------------------------------------------------------------
  // split_utf8
  // ---------------------------------------------------------------------

  /** Length of the UTF-8 unit announced by its leading byte, before it is
      clipped to the bytes that remain. Continuation and invalid leading
      bytes form a unit of one byte. */
  function LeadLength(c: byte): (n: nat)
    ensures 1 <= n <= 4
  {
    if c < 0x80 then 1
    else if (c & 0xE0) == 0xC0 then 2
    else if (c & 0xF0) == 0xE0 then 3
    else if (c & 0xF8) == 0xF0 then 4
    else 1
  }

  /** The chunks `split_utf8` produces, as a specification. */
  function Utf8Chunks(s: seq<byte>): seq<seq<byte>>
    decreases |s|
  {
    if s == [] then []
    else
      var n := Min(LeadLength(s[0]), |s|);
      [s[..n]] + Utf8Chunks(s[n..])
  }

  /** The chunks are non-empty and concatenate back to the input; empty
      input gives no chunk. */
  lemma {:induction false} Utf8ChunksJoin(s: seq<byte>)
    ensures Flatten(Utf8Chunks(s)) == s
    ensures forall k :: 0 <= k < |Utf8Chunks(s)| ==> Utf8Chunks(s)[k] != []
    ensures Utf8Chunks(s) == [] <==> s == []
    decreases |s|
  {
    if s != [] {
      var n := Min(LeadLength(s[0]), |s|);
      Utf8ChunksJoin(s[n..]);
      assert s[..n] + s[n..] == s;
      var r := Utf8Chunks(s);
      assert r[1..] == Utf8Chunks(s[n..]);
    }
  }

  /** Every chunk is as long as its leading byte announces, except that
      the last one may be clipped at the end of the input. */
  lemma {:induction false} Utf8ChunkLengths(s: seq<byte>)
    ensures forall k :: 0 <= k < |Utf8Chunks(s)| ==>
      1 <= |Utf8Chunks(s)[k]| <= LeadLength(Utf8Chunks(s)[k][0])
    ensures forall k :: 0 <= k < |Utf8Chunks(s)| - 1 ==>
      |Utf8Chunks(s)[k]| == LeadLength(Utf8Chunks(s)[k][0])
    decreases |s|
  {
    if s != [] {
      var n := Min(LeadLength(s[0]), |s|);
      Utf8ChunkLengths(s[n..]);
      var r := Utf8Chunks(s);
      assert r == [s[..n]] + Utf8Chunks(s[n..]);
      forall k | 0 <= k < |r| - 1
        ensures |r[k]| == LeadLength(r[k][0])
      {
        if k == 0 {
          assert Utf8Chunks(s[n..]) != [];
          assert n < |s|;
        }
      }
    }
  }

  /** `split_utf8`: walks the string, cutting one UTF-8 unit at a time. */
  method SplitUtf8(text: seq<byte>) returns (chars: seq<seq<byte>>)
    ensures chars == Utf8Chunks(text)
  {
    chars := [];
    var i := 0;
    assert text[0..] == text;
    while i < |text|
      invariant 0 <= i <= |text|
      invariant chars + Utf8Chunks(text[i..]) == Utf8Chunks(text)
      decreases |text| - i
    {
      var charLen := LeadLength(text[i]);
      if i + charLen > |text| {
        charLen := |text| - i;
      }
      Utf8ChunksStep(chars, text, i, charLen);
      chars := chars + [text[i..i + charLen]];
      i := i + charLen;
    }
    assert text[|text|..] == [];
  }

  /** One round of the `split_utf8` loop at position `i` cuts off the
      next chunk. */
  lemma {:induction false} Utf8ChunksStep(chars: seq<seq<byte>>, text: seq<byte>, i: nat, charLen: nat)
    requires i < |text|
    requires charLen == Min(LeadLength(text[i]), |text| - i)
    requires chars + Utf8Chunks(text[i..]) == Utf8Chunks(text)
    ensures (chars + [text[i..i + charLen]]) + Utf8Chunks(text[i + charLen..]) == Utf8Chunks(text)
  {
    var c := text[i..i + charLen];
    var after := Utf8Chunks(text[i + charLen..]);
    assert Utf8Chunks(text[i..]) == [c] + after by {
      var rest := text[i..];
      assert rest[0] == text[i];
      assert rest[..charLen] == c;
      assert rest[charLen..] == text[i + charLen..];
    }
    ConcatAssoc(chars, [c], after);
  }

  // ---------------------------------------------------------------------
  // str2list
  // ---------------------------------------------------------------------

  /** Index of the first `d` in `s`, or `|s|` when there is none. */
  function IndexOf(s: seq<byte>, d: byte): (j: nat)
    ensures j <= |s|
    ensures forall q :: 0 <= q < j ==> s[q] != d
    ensures j < |s| ==> s[j] == d
  {
    if s == [] then 0
    else if s[0] == d then 0
    else 1 + IndexOf(s[1..], d)
  }

  /** The successive fields `std::getline(stream, field, d)` extracts until
      it fails: it fails only when the stream is already exhausted, so a
      trailing delimiter yields no empty last field. */
  function GetlineFields(s: seq<byte>, d: byte): (r: seq<seq<byte>>)
    ensures forall k :: 0 <= k < |r| ==> d !in r[k]
    decreases |s|
  {
    if s == [] then []
    else
      var j := IndexOf(s, d);
      if j == |s| then [s] else [s[..j]] + GetlineFields(s[j + 1..], d)
  }

  function NonEmptyOnly(fields: seq<seq<byte>>): (r: seq<seq<byte>>)
    ensures forall k :: 0 <= k < |r| ==> r[k] != []
  {
    if fields == [] then []
    else if fields[0] == [] then NonEmptyOnly(fields[1..])
    else [fields[0]] + NonEmptyOnly(fields[1..])
  }

  /** The result of `str2list`, as a specification. */
  function Str2ListSpec(text: seq<byte>, d: byte): seq<seq<byte>> {
    var tokens := NonEmptyOnly(GetlineFields(text, d));
    if tokens == [] then [text] else tokens
  }

  /** The bytes of `s` other than `d`. */
  function Without(s: seq<byte>, d: byte): (r: seq<byte>)
    ensures d !in r
  {
    if s == [] then []
    else if s[0] == d then Without(s[1..], d)
    else [s[0]] + Without(s[1..], d)
  }

  lemma {:induction false} WithoutAppend(a: seq<byte>, b: seq<byte>, d: byte)
    ensures Without(a + b, d) == Without(a, d) + Without(b, d)
  {
    if a == [] {
      assert a + b == b;
    } else {
      assert (a + b)[1..] == a[1..] + b;
      WithoutAppend(a[1..], b, d);
    }
  }

  /** Dropping the delimiter at `j`, the first one, keeps the bytes
      before it. */
  lemma WithoutAround(s: seq<byte>, j: nat, d: byte)
    requires j < |s| && s[j] == d && d !in s[..j]
    ensures Without(s, d) == s[..j] + Without(s[j + 1..], d)
  {
    var a, b := s[..j], s[j + 1..];
    assert s == a + ([d] + b);
    WithoutAppend(a, [d] + b, d);
    WithoutAbsent(a, d);
    assert ([d] + b)[1..] == b;
  }

  lemma {:induction false} WithoutAbsent(s: seq<byte>, d: byte)
    requires d !in s
    ensures Without(s, d) == s
  {
    if s != [] {
      WithoutAbsent(s[1..], d);
    }
  }

  lemma {:induction false} FlattenNonEmptyOnly(fields: seq<seq<byte>>)
    ensures Flatten(NonEmptyOnly(fields)) == Flatten(fields)
  {
    if fields != [] {
      FlattenNonEmptyOnly(fields[1..]);
    }
  }

  /** The getline fields concatenate to the input with every delimiter
      removed. */
  lemma {:induction false} GetlineFieldsJoin(s: seq<byte>, d: byte)
    ensures Flatten(GetlineFields(s, d)) == Without(s, d)
    decreases |s|
  {
    if s != [] {
      var j := IndexOf(s, d);
      if j == |s| {
        WithoutAbsent(s, d);
      } else {
        var a, b := s[..j], s[j + 1..];
        assert GetlineFields(s, d) == [a] + GetlineFields(b, d);
        GetlineFieldsJoin(b, d);
        WithoutAround(s, j, d);
      }
    }
  }

  /** The fields with `d` between each two of them. */
  function JoinWith(fields: seq<seq<byte>>, d: byte): seq<byte> {
    if fields == [] then []
    else if |fields| == 1 then fields[0]
    else fields[0] + [d] + JoinWith(fields[1..], d)
  }

  /** The delimiter that ends `s`, if any. */
  function TrailingDelimiter(s: seq<byte>, d: byte): seq<byte> {
    if s != [] && s[|s| - 1] == d then [d] else []
  }

  /** The getline fields split the text exactly at its delimiters: joined
      back with `d` between them they give the text, less the one trailing
      delimiter that yields no field. */
  lemma {:induction false} GetlineFieldsRoundTrip(s: seq<byte>, d: byte)
    ensures JoinWith(GetlineFields(s, d), d) + TrailingDelimiter(s, d) == s
    decreases |s|
  {
    if s != [] {
      var j := IndexOf(s, d);
      if j < |s| {
        GetlineFieldsRoundTrip(s[j + 1..], d);
        GetlineFieldsJoinStep(s, d, j);
      }
    }
  }

  /** The step of the round trip at the first delimiter `j`. */
  lemma GetlineFieldsJoinStep(s: seq<byte>, d: byte, j: nat)
    requires j == IndexOf(s, d) && j < |s|
    requires JoinWith(GetlineFields(s[j + 1..], d), d) + TrailingDelimiter(s[j + 1..], d) == s[j + 1..]
    ensures JoinWith(GetlineFields(s, d), d) + TrailingDelimiter(s, d) == s
  {
    var a, b := s[..j], s[j + 1..];
    var rest := GetlineFields(b, d);
    assert GetlineFields(s, d) == [a] + rest by {
      GetlineFieldsFront(s, d, j);
    }
    SplitAround(s, j, d);
    if b == [] {
      assert JoinWith([a] + rest, d) == a;
    } else {
      assert rest != [] by {
        GetlineFieldsNonEmpty(b, d);
      }
      JoinCons(a, rest, d);
      JoinRegroup(s, a, b, d, JoinWith(rest, d), TrailingDelimiter(b, d));
    }
  }

  /** Cutting the text at a delimiter `j`: the pieces around it, and the
      piece after it ends the way the text does. */
  lemma SplitAround(s: seq<byte>, j: nat, d: byte)
    requires j < |s| && s[j] == d
    ensures s == s[..j] + [d] + s[j + 1..]
    ensures s[j + 1..] == [] ==> TrailingDelimiter(s, d) == [d]
    ensures s[j + 1..] != [] ==> TrailingDelimiter(s, d) == TrailingDelimiter(s[j + 1..], d)
  {
    if j + 1 < |s| {
      assert s[j + 1..][|s| - j - 2] == s[|s| - 1];
    }
  }

  lemma GetlineFieldsNonEmpty(s: seq<byte>, d: byte)
    requires s != []
    ensures GetlineFields(s, d) != []
  {
  }

  lemma JoinCons(a: seq<byte>, rest: seq<seq<byte>>, d: byte)
    requires rest != []
    ensures JoinWith([a] + rest, d) == a + [d] + JoinWith(rest, d)
  {
    assert ([a] + rest)[1..] == rest;
  }

  lemma JoinRegroup(s: seq<byte>, a: seq<byte>, b: seq<byte>, d: byte, joined: seq<byte>, tail: seq<byte>)
    requires s == a + [d] + b && b == joined + tail
    ensures (a + [d] + joined) + tail == s
  {
  }

  /** `str2list` never returns an empty list; when some piece is
      non-empty, its pieces are exactly the non-empty, delimiter-free
      fields and they concatenate to the text without its delimiters;
      otherwise the text itself is the single element. */
  lemma Str2ListProperties(text: seq<byte>, d: byte)
    ensures Str2ListSpec(text, d) != []
    ensures NonEmptyOnly(GetlineFields(text, d)) == [] ==> Str2ListSpec(text, d) == [text]
    ensures NonEmptyOnly(GetlineFields(text, d)) != [] ==>
      (forall k :: 0 <= k < |Str2ListSpec(text, d)| ==>
         Str2ListSpec(text, d)[k] != [] && d !in Str2ListSpec(text, d)[k])
      && Flatten(Str2ListSpec(text, d)) == Without(text, d)
  {
    FlattenNonEmptyOnly(GetlineFields(text, d));
    GetlineFieldsJoin(text, d);
  }

  /** The non-empty fields `std::getline` still has to extract once the
      stream is at position `i`. */
  ghost function FieldsFrom(text: seq<byte>, d: byte, i: nat): seq<seq<byte>>
    requires i <= |text|
  {
    NonEmptyOnly(GetlineFields(text[i..], d))
  }

  /** `str2list`: a getline loop over the text keeping the non-empty
      fields, with the whole text as fallback. */
  method Str2List(text: seq<byte>, delimiter: byte) returns (tokens: seq<seq<byte>>)
    ensures tokens == Str2ListSpec(text, delimiter)
  {
    tokens := [];
    var i := 0;
    assert text[0..] == text;
    while i < |text|
      invariant 0 <= i <= |text|
      invariant tokens + FieldsFrom(text, delimiter, i) == FieldsFrom(text, delimiter, 0)
      decreases |text| - i
    {
      var j := i;
      while j < |text| && text[j] != delimiter
        invariant i <= j <= |text|
        invariant forall q :: i <= q < j ==> text[q] != delimiter
        decreases |text| - j
      {
        j := j + 1;
      }
      var next := if j < |text| then j + 1 else j;
      Str2ListStep(tokens, text, delimiter, i, j, next);
      if j > i {
        tokens := tokens + [text[i..j]];
      }
      i := next;
    }
    assert text[|text|..] == [];
    if tokens == [] {
      tokens := [text];
    }
  }

  /** One `std::getline` call starting at `i` extracts `text[i..j]`, where
      `j` is the next delimiter or the end, and resumes at `next`, after
      that delimiter. */
  lemma {:induction false} Str2ListStep(tokens: seq<seq<byte>>, text: seq<byte>, d: byte, i: nat, j: nat, next: nat)
    requires i < |text| && i <= j <= |text|
    requires forall q :: i <= q < j ==> text[q] != d
    requires j < |text| ==> text[j] == d
    requires next == if j < |text| then j + 1 else j
    requires tokens + FieldsFrom(text, d, i) == FieldsFrom(text, d, 0)
    ensures (if j > i then tokens + [text[i..j]] else tokens) + FieldsFrom(text, d, next)
         == FieldsFrom(text, d, 0)
  {
    GetlineStep(text, d, i, j, next);
    var field: seq<seq<byte>> := if j > i then [text[i..j]] else [];
    assert (if j > i then tokens + [text[i..j]] else tokens) == tokens + field;
    ConcatAssoc(tokens, field, FieldsFrom(text, d, next));
  }

  lemma ConcatAssoc<T>(a: seq<T>, b: seq<T>, c: seq<T>)
    ensures a + (b + c) == (a + b) + c
  {
  }

  /** One `std::getline` call starting at `i` yields the field
      `text[i..j]` and leaves the stream after the delimiter. */
  lemma {:induction false} GetlineStep(text: seq<byte>, d: byte, i: nat, j: nat, next: nat)
    requires i < |text| && i <= j <= |text|
    requires forall q :: i <= q < j ==> text[q] != d
    requires j < |text| ==> text[j] == d
    requires next == if j < |text| then j + 1 else j
    ensures FieldsFrom(text, d, i) == (if j > i then [text[i..j]] else []) + FieldsFrom(text, d, next)
  {
    var rest := text[i..];
    var k := j - i;
    assert forall q :: 0 <= q < k ==> rest[q] != d by {
      forall q | 0 <= q < k ensures rest[q] != d {
        assert rest[q] == text[i + q];
      }
    }
    if j < |text| {
      assert GetlineFields(rest, d) == [text[i..j]] + GetlineFields(text[next..], d) by {
        GetlineFieldsFront(rest, d, k);
        assert rest[..k] == text[i..j];
        assert rest[k + 1..] == text[next..];
      }
      NonEmptyOnlyCons(text[i..j], GetlineFields(text[next..], d));
    } else {
      assert GetlineFields(rest, d) == [text[i..j]] + [] by {
        GetlineFieldsFront(rest, d, k);
        assert rest[..k] == text[i..j];
      }
      assert GetlineFields(text[next..], d) == [] by {
        assert text[next..] == [];
      }
      NonEmptyOnlyCons(text[i..j], []);
    }
  }

  lemma NonEmptyOnlyCons(x: seq<byte>, fields: seq<seq<byte>>)
    ensures NonEmptyOnly([x] + fields) == (if x != [] then [x] else []) + NonEmptyOnly(fields)
  {
    assert ([x] + fields)[1..] == fields;
  }

  /** The first getline field of a non-empty stream runs up to the first
      delimiter `k`, and the next field starts after it. */
  lemma GetlineFieldsFront(s: seq<byte>, d: byte, k: nat)
    requires s != [] && k <= |s|
    requires forall q :: 0 <= q < k ==> s[q] != d
    requires k < |s| ==> s[k] == d
    ensures k < |s| ==> GetlineFields(s, d) == [s[..k]] + GetlineFields(s[k + 1..], d)
    ensures k == |s| ==> GetlineFields(s, d) == [s] && s[..k] == s
  {
    IndexOfIs(s, d, k);
  }

  lemma {:induction false} IndexOfIs(s: seq<byte>, d: byte, j: nat)
    requires j <= |s|
    requires forall q :: 0 <= q < j ==> s[q] != d
    requires j < |s| ==> s[j] == d
    ensures IndexOf(s, d) == j
  {
    if s != [] && s[0] != d {
      IndexOfIs(s[1..], d, j - 1);
    }
  }

  // ---------------------------------------------------------------------
  // replace_inplace
  // ---------------------------------------------------------------------

  /** `pat` occurs in `s` at position `p`. */
  predicate OccursAt(s: seq<byte>, pat: seq<byte>, p: nat) {
    p + |pat| <= |s| && s[p..p + |pat|] == pat
  }

  /** `std::string::find(pat, start)` for a non-empty pattern: the first
      occurrence at or after `start`. */
  function Find(s: seq<byte>, pat: seq<byte>, start: nat): (r: Option<nat>)
    requires pat != []
    ensures r.Some? ==>
      start <= r.value && OccursAt(s, pat, r.value) &&
      forall q :: start <= q < r.value ==> !OccursAt(s, pat, q)
    ensures r.None? ==> forall q :: start <= q ==> !OccursAt(s, pat, q)
    decreases |s| - start
  {
    if start + |pat| > |s| then None
    else if OccursAt(s, pat, start) then Some(start)
    else Find(s, pat, start + 1)
  }

  /** Leftmost, non-overlapping replacement of every `from` by `to`. */
  function ReplaceAll(s: seq<byte>, from: seq<byte>, to: seq<byte>): seq<byte>
    requires from != []
    decreases |s|
  {
    if s == [] then []
    else if OccursAt(s, from, 0) then to + ReplaceAll(s[|from|..], from, to)
    else [s[0]] + ReplaceAll(s[1..], from, to)
  }

  /** Replacing in a string where `from` does not occur changes nothing. */
  lemma {:induction false} ReplaceAllAbsent(s: seq<byte>, from: seq<byte>, to: seq<byte>)
    requires from != []
    requires forall q :: 0 <= q ==> !OccursAt(s, from, q)
    ensures ReplaceAll(s, from, to) == s
    decreases |s|
  {
    if s != [] {
      forall q | 0 <= q ensures !OccursAt(s[1..], from, q) {
        OccursAtTail(s, from, q);
      }
      ReplaceAllAbsent(s[1..], from, to);
    }
  }

  /** When the first occurrence of `from` in `s` is at `p`, the bytes before
      it are copied and the occurrence is replaced. */
  lemma {:induction false} ReplaceAllFirst(s: seq<byte>, from: seq<byte>, to: seq<byte>, p: nat)
    requires from != []
    requires OccursAt(s, from, p)
    requires forall q :: 0 <= q < p ==> !OccursAt(s, from, q)
    ensures ReplaceAll(s, from, to) == s[..p] + to + ReplaceAll(s[p + |from|..], from, to)
    decreases p
  {
    if p > 0 {
      var t := s[1..];
      calc {
        ReplaceAll(s, from, to);
        { assert !OccursAt(s, from, 0);
          ReplaceAllSkip(s, from, to); }
        [s[0]] + ReplaceAll(t, from, to);
        { FirstOccurrenceTail(s, from, p);
          ReplaceAllFirst(t, from, to, p - 1); }
        [s[0]] + (t[..p - 1] + to + ReplaceAll(t[p - 1 + |from|..], from, to));
        { ConsSlices(s, p, |from|); }
        [s[0]] + (t[..p - 1] + to + ReplaceAll(s[p + |from|..], from, to));
        { ConsAssoc(s[0], t[..p - 1], to, ReplaceAll(s[p + |from|..], from, to)); }
        ([s[0]] + t[..p - 1]) + to + ReplaceAll(s[p + |from|..], from, to);
        { ConsSlices(s, p, |from|); }
        s[..p] + to + ReplaceAll(s[p + |from|..], from, to);
      }
    }
  }

  /** Where `from` does not occur at the front, the first byte is copied. */
  lemma ReplaceAllSkip(s: seq<byte>, from: seq<byte>, to: seq<byte>)
    requires from != [] && s != [] && !OccursAt(s, from, 0)
    ensures ReplaceAll(s, from, to) == [s[0]] + ReplaceAll(s[1..], from, to)
  {
  }

  /** A sequence is its three slices around `b` and `e`. */
  lemma ThreeSlices<T>(s: seq<T>, b: nat, e: nat)
    requires b <= e <= |s|
    ensures s == s[..b] + s[b..e] + s[e..]
  {
  }

  lemma ConsSlices(s: seq<byte>, p: nat, n: nat)
    requires 0 < p && p + n <= |s|
    ensures s[..p] == [s[0]] + s[1..][..p - 1]
    ensures s[1..][p - 1 + n..] == s[p + n..]
  {
  }

  lemma ConsAssoc(x: byte, a: seq<byte>, b: seq<byte>, c: seq<byte>)
    ensures [x] + (a + b + c) == ([x] + a) + b + c
  {
  }

  /** A first occurrence at `p > 0` is a first occurrence at `p - 1` in
      the tail. */
  lemma FirstOccurrenceTail(s: seq<byte>, from: seq<byte>, p: nat)
    requires OccursAt(s, from, p) && p > 0
    requires forall q :: 0 <= q < p ==> !OccursAt(s, from, q)
    ensures OccursAt(s[1..], from, p - 1)
    ensures forall q :: 0 <= q < p - 1 ==> !OccursAt(s[1..], from, q)
  {
    forall q | 0 <= q < p - 1 ensures !OccursAt(s[1..], from, q) {
      OccursAtTail(s, from, q);
    }
    OccursAtTail(s, from, p - 1);
  }

  /** Occurrences in the tail of `s` are the occurrences in `s` one
      position further on. */
  lemma {:induction false} OccursAtTail(s: seq<byte>, pat: seq<byte>, q: nat)
    requires s != []
    ensures OccursAt(s, pat, q + 1) <==> OccursAt(s[1..], pat, q)
  {
    if q + 1 + |pat| <= |s| {
      assert s[1..][q..q + |pat|] == s[q + 1..q + 1 + |pat|];
    }
  }

  /** Occurrences in `s` at or after `k` are the occurrences in `s[k..]`. */
  lemma OccursAtDrop(s: seq<byte>, k: nat, pat: seq<byte>, q: nat)
    requires k <= |s|
    ensures OccursAt(s, pat, k + q) <==> OccursAt(s[k..], pat, q)
  {
    if k + q + |pat| <= |s| {
      assert s[k..][q..q + |pat|] == s[k + q..k + q + |pat|];
    }
  }

  /** The state of `replace_inplace` before each `find`: the bytes before
      `startPos` are final, and replacing in the bytes from `startPos` on
      completes the replacement in `str`. */
  ghost predicate ReplaceProgress(str: seq<byte>, from: seq<byte>, to: seq<byte>, res: seq<byte>, startPos: nat)
    requires from != []
  {
    startPos <= |res| && ReplaceAll(str, from, to) == res[..startPos] + ReplaceAll(res[startPos..], from, to)
  }

  /** `replace_inplace`: repeatedly finds `from` at or after `start_pos`,
      replaces it, and resumes after the inserted text; an empty `from`
      leaves the string alone. */
  method ReplaceInplace(str: seq<byte>, from: seq<byte>, to: seq<byte>) returns (res: seq<byte>)
    ensures from == [] ==> res == str
    ensures from != [] ==> res == ReplaceAll(str, from, to)
  {
    res := str;
    if from == [] {
      return;
    }
    var startPos: nat := 0;
    assert res[..0] + res[0..] == res;
    var found := Find(res, from, startPos);
    while found.Some?
      invariant ReplaceProgress(str, from, to, res, startPos)
      invariant found == Find(res, from, startPos)
      decreases |res| - startPos
    {
      var pos := found.value;
      ReplaceStep(str, from, to, res, startPos, pos);
      res := Splice(res, pos, |from|, to);
      startPos := pos + |to|;
      found := Find(res, from, startPos);
    }
    ReplaceStop(str, from, to, res, startPos);
  }

  /** One round of `replace_inplace`: replacing the occurrence `find`
      reports at `pos` and resuming after the inserted text keeps the
      progress invariant and leaves fewer bytes to scan. */
  lemma {:induction false} ReplaceStep(str: seq<byte>, from: seq<byte>, to: seq<byte>, res: seq<byte>, startPos: nat, pos: nat)
    requires from != []
    requires ReplaceProgress(str, from, to, res, startPos)
    requires Find(res, from, startPos) == Some(pos)
    ensures pos + |from| <= |res|
    ensures ReplaceProgress(str, from, to, Splice(res, pos, |from|, to), pos + |to|)
    ensures |res| - pos - |from| < |res| - startPos
  {
    ReplaceFirstInRest(str, from, to, res, startPos, pos);
    SpliceAt(res, startPos, pos, |from|, to);
    ProgressAt(str, from, to, res[..startPos] + res[startPos..][..pos - startPos] + to,
               res[startPos..][pos - startPos + |from|..], Splice(res, pos, |from|, to), pos + |to|);
  }

  /** Replacing the first occurrence in the unfinished part extends the
      final prefix past the inserted text. */
  lemma ReplaceFirstInRest(str: seq<byte>, from: seq<byte>, to: seq<byte>, res: seq<byte>, startPos: nat, pos: nat)
    requires from != []
    requires ReplaceProgress(str, from, to, res, startPos)
    requires Find(res, from, startPos) == Some(pos)
    ensures startPos <= pos && pos + |from| <= |res|
    ensures ReplaceAll(str, from, to)
         == (res[..startPos] + res[startPos..][..pos - startPos] + to)
            + ReplaceAll(res[startPos..][pos - startPos + |from|..], from, to)
  {
    FindInRest(res, startPos, from, pos);
    ReplaceAllFirst(res[startPos..], from, to, pos - startPos);
    Regroup(ReplaceAll(str, from, to), res[..startPos], ReplaceAll(res[startPos..], from, to),
            res[startPos..][..pos - startPos], to, ReplaceAll(res[startPos..][pos - startPos + |from|..], from, to));
  }

  /** Progress holds at the boundary between a final prefix and the rest. */
  lemma ProgressAt(str: seq<byte>, from: seq<byte>, to: seq<byte>, done: seq<byte>, rest: seq<byte>, res: seq<byte>, k: nat)
    requires from != [] && res == done + rest && k == |done|
    requires ReplaceAll(str, from, to) == done + ReplaceAll(rest, from, to)
    ensures ReplaceProgress(str, from, to, res, k)
  {
    assert res[..k] == done && res[k..] == rest;
  }

  /** What `find` reports from `k` on is the first occurrence in
      `s[k..]`. */
  lemma FindInRest(s: seq<byte>, k: nat, from: seq<byte>, pos: nat)
    requires from != [] && k <= |s|
    requires Find(s, from, k) == Some(pos)
    ensures k <= pos
    ensures OccursAt(s[k..], from, pos - k)
    ensures forall q :: 0 <= q < pos - k ==> !OccursAt(s[k..], from, q)
  {
    OccursAtDrop(s, k, from, pos - k);
    forall q | 0 <= q < pos - k ensures !OccursAt(s[k..], from, q) {
      OccursAtDrop(s, k, from, q);
    }
  }

  lemma Regroup(r: seq<byte>, done: seq<byte>, r': seq<byte>, pre: seq<byte>, to: seq<byte>, x: seq<byte>)
    requires r == done + r' && r' == pre + to + x
    ensures r == (done + pre + to) + x
  {
  }

  /** `std::string::replace(pos, n, t)`: the `n` bytes at `pos` give way
      to `t`. */
  function Splice(s: seq<byte>, pos: nat, n: nat, t: seq<byte>): (r: seq<byte>)
    requires pos + n <= |s|
    ensures |r| == |s| - n + |t|
    ensures r[..pos] == s[..pos] && r[pos..pos + |t|] == t && r[pos + |t|..] == s[pos + n..]
  {
    s[..pos] + t + s[pos + n..]
  }

  /** The splice, seen from an earlier position `k`. */
  lemma SpliceAt(s: seq<byte>, k: nat, pos: nat, n: nat, t: seq<byte>)
    requires k <= pos && pos + n <= |s|
    ensures Splice(s, pos, n, t) == (s[..k] + s[k..][..pos - k] + t) + s[k..][pos - k + n..]
  {
    assert s[..pos] == s[..k] + s[k..][..pos - k];
    assert s[pos + n..] == s[k..][pos - k + n..];
  }

  /** When `find` reports no further occurrence, the rest is copied and
      the replacement is complete. */
  lemma {:induction false} ReplaceStop(str: seq<byte>, from: seq<byte>, to: seq<byte>, res: seq<byte>, startPos: nat)
    requires from != []
    requires ReplaceProgress(str, from, to, res, startPos)
    requires Find(res, from, startPos) == None
    ensures ReplaceAll(str, from, to) == res
  {
    forall q | 0 <= q ensures !OccursAt(res[startPos..], from, q) {
      OccursAtDrop(res, startPos, from, q);
    }
    ReplaceAllAbsent(res[startPos..], from, to);
    assert res[..startPos] + res[startPos..] == res;
  }

  /** Replacement never runs into the inserted text: replacing `x` by `yx`
      in `x` yields `yx` (the source's own comment case). */
  lemma {:induction false} ReplaceResumesAfterInsertion()
    ensures ReplaceAll(['x' as byte], ['x' as byte], ['y' as byte, 'x' as byte]) == ['y' as byte, 'x' as byte]
  {
    var s: seq<byte> := ['x' as byte];
    assert OccursAt(s, s, 0);
    assert s[1..] == [];
  }

  // ---------------------------------------------------------------------
  // strip
  // ---------------------------------------------------------------------

  function LeadingSpaces(s: seq<byte>): (n: nat)
    ensures n <= |s|
    ensures AllSpace(s[..n])
    ensures n < |s| ==> !IsSpace(s[n])
  {
    if s == [] || !IsSpace(s[0]) then 0
    else
      var m := LeadingSpaces(s[1..]);
      assert forall i :: 1 <= i <= m ==> s[i] == s[1..][i - 1];
      1 + m
  }

  function TrailingSpaces(s: seq<byte>): (n: nat)
    ensures n <= |s|
    ensures AllSpace(s[|s| - n..])
    ensures n < |s| ==> !IsSpace(s[|s| - n - 1])
  {
    if s == [] || !IsSpace(s[|s| - 1]) then 0
    else
      var t := s[..|s| - 1];
      var m := TrailingSpaces(t);
      assert forall i :: |s| - m - 1 <= i < |s| - 1 ==> s[i] == t[i];
      1 + m
  }

  /** A non-whitespace byte lies before the trailing whitespace. */
  lemma {:induction false} NonSpaceBeforeTrailing(s: seq<byte>, k: nat)
    requires k < |s| && !IsSpace(s[k])
    ensures k < |s| - TrailingSpaces(s)
  {
    if IsSpace(s[|s| - 1]) {
      assert k != |s| - 1;
      assert s[..|s| - 1][k] == s[k];
      NonSpaceBeforeTrailing(s[..|s| - 1], k);
    }
  }

  /** `strip`: the text between the first and the last non-whitespace
      byte, or empty when there is none. */
  function Strip(s: seq<byte>): seq<byte> {
    var b := LeadingSpaces(s);
    var e := |s| - TrailingSpaces(s);
    if b < e then s[b..e] else []
  }

  /** The stripped text is a contiguous piece of the input with only
      whitespace around it, and it neither starts nor ends with
      whitespace; it is empty exactly when the input is all whitespace. */
  lemma {:induction false} StripProperties(s: seq<byte>)
    ensures Strip(s) == [] <==> AllSpace(s)
    ensures Strip(s) != [] ==> !IsSpace(Strip(s)[0]) && !IsSpace(Strip(s)[|Strip(s)| - 1])
    ensures exists i, j ::
      0 <= i <= j <= |s| && Strip(s) == s[i..j] && AllSpace(s[..i]) && AllSpace(s[j..])
  {
    var b := LeadingSpaces(s);
    var e := |s| - TrailingSpaces(s);
    if b < e {
      assert Strip(s) == s[b..e];
      assert !AllSpace(s) by { assert !IsSpace(s[b]); }
    } else {
      if b < |s| {
        assert false;
      }
      assert s[..b] == s;
      assert AllSpace(s[..0]) && AllSpace(s[0..]);
      assert Strip(s) == s[0..0];
    }
  }

  /** Stripping twice is stripping once. */
  lemma {:induction false} StripIdempotent(s: seq<byte>)
    ensures Strip(Strip(s)) == Strip(s)
  {
    StripProperties(s);
    var t := Strip(s);
    if t != [] {
      assert LeadingSpaces(t) == 0;
      assert TrailingSpaces(t) == 0;
      assert t[0..|t|] == t;
    }
  }

  /** A string that neither starts nor ends with whitespace is unchanged. */
  lemma {:induction false} StripUnchanged(s: seq<byte>)
    requires s != [] ==> !IsSpace(s[0]) && !IsSpace(s[|s| - 1])
    ensures Strip(s) == s
  {
    if s != [] {
      assert LeadingSpaces(s) == 0 && TrailingSpaces(s) == 0;
      assert s[0..|s|] == s;
    }
  }
}
