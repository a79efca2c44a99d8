/** The vocabulary file format read by `load_vocab_` in
    src/tts/kokoro.cpp: one `token<TAB>id` entry per line, with `\n`, `\r`
    and `\t` escapes in the token and the id read by `std::stoi`. */
module Vocab {
  import opened Bytes
  import StringUtils

  const Tab: byte := 0x09
  const Backslash: byte := 0x5C

  /** The largest and smallest values of a 32-bit `int`. */
  const IntMax: int := 0x7FFF_FFFF
  const IntMin: int := -0x8000_0000

  predicate IsDigit(b: byte) {
    0x30 <= b <= 0x39
  }

  /** The number of decimal digits `s` starts with. */
  function DigitRun(s: seq<byte>): (n: nat)
    ensures n <= |s|
    ensures forall k :: 0 <= k < n ==> IsDigit(s[k])
    ensures n < |s| ==> !IsDigit(s[n])
    decreases |s|
  {
    if s == [] || !IsDigit(s[0]) then 0 else 1 + DigitRun(s[1..])
  }

  /** The value of a string of decimal digits, most significant first. */
  function DigitsValue(ds: seq<byte>): nat
    requires forall k :: 0 <= k < |ds| ==> IsDigit(ds[k])
    decreases |ds|
  {
    if ds == [] then 0
    else DigitsValue(ds[..|ds| - 1]) * 10 + (ds[|ds| - 1] - 0x30) as int
  }

  /** `std::stoi(s)`: leading whitespace is skipped, an optional sign and
      the longest run of decimal digits after it are read, and the rest is
      ignored. Without a digit, or with a value outside the 32-bit range,
      `stoi` throws; that is `None` here. */
  function Stoi(s: seq<byte>): (r: Option<int>)
    ensures r.Some? ==> IntMin <= r.value <= IntMax
  {
    var t := s[StringUtils.LeadingSpaces(s)..];
    if t != [] && (t[0] == '-' as byte || t[0] == '+' as byte)
    then ReadNumber(t[1..], t[0] == '-' as byte)
    else ReadNumber(t, false)
  }

  /** The digits `u` starts with, negated or not, if there is one and the
      value is an `int`. */
  function ReadNumber(u: seq<byte>, negative: bool): (r: Option<int>)
    ensures r.Some? ==> IntMin <= r.value <= IntMax
  {
    var n := DigitRun(u);
    if n == 0 then None
    else
      var magnitude: int := DigitsValue(u[..n]);
      var v := if negative then -magnitude else magnitude;
      if IntMin <= v <= IntMax then Some(v) else None
  }

  /** The decimal digit of `d`. */
  function Digit(d: nat): (b: byte)
    requires d < 10
    ensures IsDigit(b) && (b - 0x30) as int == d
  {
    0x30 + d as byte
  }

  /** The decimal numeral of `n`, without leading zeros. */
  function Decimal(n: nat): (ds: seq<byte>)
    ensures ds != []
    ensures forall k :: 0 <= k < |ds| ==> IsDigit(ds[k])
  {
    if n < 10 then [Digit(n)] else Decimal(n / 10) + [Digit(n % 10)]
  }

  lemma {:induction false} DecimalValue(n: nat)
    ensures DigitsValue(Decimal(n)) == n
  {
    if n >= 10 {
      var m, d := n / 10, n % 10;
      DecimalValue(m);
      var ds := Decimal(n);
      assert ds == Decimal(m) + [Digit(d)];
      assert ds[..|ds| - 1] == Decimal(m);
      assert DigitsValue(ds) == m * 10 + d;
    }
  }

  lemma {:induction false} DigitRunOf(ds: seq<byte>, rest: seq<byte>)
    requires forall k :: 0 <= k < |ds| ==> IsDigit(ds[k])
    requires rest == [] || !IsDigit(rest[0])
    ensures DigitRun(ds + rest) == |ds|
    decreases |ds|
  {
    if ds != [] {
      assert (ds + rest)[1..] == ds[1..] + rest;
      DigitRunOf(ds[1..], rest);
    } else {
      assert ds + rest == rest;
    }
  }

  /** The digits of a numeral followed by a non-digit are read as its
      value. */
  lemma {:induction false} ReadDecimal(n: nat, rest: seq<byte>, negative: bool)
    requires rest == [] || !IsDigit(rest[0])
    ensures var v := if negative then -(n as int) else n;
      IntMin <= v <= IntMax ==> ReadNumber(Decimal(n) + rest, negative) == Some(v)
  {
    var ds := Decimal(n);
    var s := ds + rest;
    DecimalValue(n);
    DigitRunOf(ds, rest);
    assert s[..|ds|] == ds;
  }

  /** With no leading whitespace, `stoi` starts at the sign or digits. */
  lemma {:induction false} StoiUnspaced(s: seq<byte>)
    requires s != [] && !IsSpace(s[0])
    ensures Stoi(s) == if s[0] == '-' as byte || s[0] == '+' as byte
      then ReadNumber(s[1..], s[0] == '-' as byte) else ReadNumber(s, false)
  {
    assert StringUtils.LeadingSpaces(s) == 0;
    assert s[0..] == s;
  }

  /** `stoi` reads back a numeral, whatever follows it that is not a digit
      (such as the `\r` of a line ending in `\r\n`). */
  lemma {:induction false} StoiDecimal(n: nat, rest: seq<byte>)
    requires rest == [] || !IsDigit(rest[0])
    requires n <= IntMax
    ensures Stoi(Decimal(n) + rest) == Some(n)
  {
    var s := Decimal(n) + rest;
    ReadDecimal(n, rest, false);
    StoiUnspaced(s);
  }

  /** `stoi` reads back a negated numeral down to the smallest `int`. */
  lemma {:induction false} StoiNegatedDecimal(n: nat, rest: seq<byte>)
    requires rest == [] || !IsDigit(rest[0])
    requires n <= -IntMin
    ensures Stoi(['-' as byte] + (Decimal(n) + rest)) == Some(-(n as int))
  {
    var s := Decimal(n) + rest;
    var m := ['-' as byte] + s;
    ReadDecimal(n, rest, true);
    StoiUnspaced(m);
    assert m[1..] == s;
  }

  /** What one line of the file contributes. */
  datatype LineParse =
    | Skip                                // no tab: the line is ignored
    | Pair(token: seq<byte>, id: int)     // an entry
    | BadId(token: seq<byte>)             // `stoi` throws on the id

  /** The token unescaping: `\n`, then `\r`, then `\t`, each replaced
      leftmost first, scanning on after each replacement. */
  function Unescape(token: seq<byte>): seq<byte> {
    var a := StringUtils.ReplaceAll(token, [Backslash, 'n' as byte], [0x0A]);
    var b := StringUtils.ReplaceAll(a, [Backslash, 'r' as byte], [0x0D]);
    StringUtils.ReplaceAll(b, [Backslash, 't' as byte], [Tab])
  }

  /** One line: the token is the text before the first tab, unescaped, and
      the id is read from the text after it. */
  function ParseLine(line: seq<byte>): LineParse {
    var tab := StringUtils.IndexOf(line, Tab);
    if tab == |line| then Skip
    else
      var token := Unescape(line[..tab]);
      match Stoi(line[tab + 1..])
      case Some(id) => Pair(token, id)
      case None => BadId(token)
  }

  /** One round of `load_vocab_`'s line loop: split at the first tab,
      unescape the token in place and convert the id. */
  method ReadLine(line: seq<byte>) returns (e: LineParse)
    ensures e == ParseLine(line)
  {
    var tab := StringUtils.IndexOf(line, Tab);
    if tab == |line| {
      return Skip;
    }
    var token := line[..tab];
    var idStr := line[tab + 1..];
    token := StringUtils.ReplaceInplace(token, [Backslash, 'n' as byte], [0x0A]);
    token := StringUtils.ReplaceInplace(token, [Backslash, 'r' as byte], [0x0D]);
    token := StringUtils.ReplaceInplace(token, [Backslash, 't' as byte], [Tab]);
    var id := Stoi(idStr);
    ParseLineAt(line, tab, token);
    if id.None? {
      return BadId(token);
    }
    return Pair(token, id.value);
  }

  /** A line with a tab at `tab` parses to its unescaped token and the
      outcome of `stoi` on the rest. */
  lemma ParseLineAt(line: seq<byte>, tab: nat, token: seq<byte>)
    requires tab == StringUtils.IndexOf(line, Tab) && tab < |line|
    requires token == Unescape(line[..tab])
    ensures Stoi(line[tab + 1..]).None? ==> ParseLine(line) == BadId(token)
    ensures Stoi(line[tab + 1..]).Some? ==> ParseLine(line) == Pair(token, Stoi(line[tab + 1..]).value)
  {
  }

  /** A line is ignored exactly when it has no tab. */
  lemma {:induction false} SkipWithoutTab(line: seq<byte>)
    ensures ParseLine(line).Skip? <==> Tab !in line
  {
    var tab := StringUtils.IndexOf(line, Tab);
    if Tab in line {
      var q :| 0 <= q < |line| && line[q] == Tab;
      assert tab <= q;
    }
  }

  /** A token without a backslash holds no escape and is kept as it is. */
  lemma {:induction false} UnescapePlain(token: seq<byte>)
    requires Backslash !in token
    ensures Unescape(token) == token
  {
    forall pat: seq<byte>, q: nat | |pat| == 2 && pat[0] == Backslash
      ensures !StringUtils.OccursAt(token, pat, q)
    {
      if q + 2 <= |token| {
        assert token[q..q + 2][0] == token[q];
      }
    }
    StringUtils.ReplaceAllAbsent(token, [Backslash, 'n' as byte], [0x0A]);
    StringUtils.ReplaceAllAbsent(token, [Backslash, 'r' as byte], [0x0D]);
    StringUtils.ReplaceAllAbsent(token, [Backslash, 't' as byte], [Tab]);
  }

  /** Every line of the file, parsed. */
  function ParseAll(lines: seq<seq<byte>>): (r: seq<LineParse>)
    ensures |r| == |lines|
    ensures forall k :: 0 <= k < |lines| ==> r[k] == ParseLine(lines[k])
  {
    seq(|lines|, k requires 0 <= k < |lines| => ParseLine(lines[k]))
  }

  /** The entries in order, from `vocab` on: each entry sets its token's id,
      and a line whose id `stoi` rejects stops the load, leaving the
      entries before it in place. */
  function Scan(entries: seq<LineParse>, vocab: map<seq<byte>, int>): (map<seq<byte>, int>, bool)
    decreases |entries|
  {
    if entries == [] then (vocab, true)
    else
      match entries[0]
      case Skip => Scan(entries[1..], vocab)
      case Pair(token, id) => Scan(entries[1..], vocab[token := id])
      case BadId(_) => (vocab, false)
  }

  /** The load succeeds exactly when no line has an id `stoi` rejects. */
  lemma {:induction false} ScanSucceeds(entries: seq<LineParse>, vocab: map<seq<byte>, int>)
    ensures Scan(entries, vocab).1 <==> forall k :: 0 <= k < |entries| ==> !entries[k].BadId?
    decreases |entries|
  {
    if entries != [] {
      match entries[0]
      case Skip =>
        ScanSucceeds(entries[1..], vocab);
        assert forall k :: 1 <= k < |entries| ==> entries[k] == entries[1..][k - 1];
      case Pair(token, id) =>
        ScanSucceeds(entries[1..], vocab[token := id]);
        assert forall k :: 1 <= k < |entries| ==> entries[k] == entries[1..][k - 1];
      case BadId(_) =>
    }
  }

  /** The id of a token is the one on the last line that names it: later
      lines overwrite earlier ones. */
  lemma {:induction false} ScanLastWins(entries: seq<LineParse>, vocab: map<seq<byte>, int>, k: nat)
    requires Scan(entries, vocab).1
    requires k < |entries| && entries[k].Pair?
    requires forall j :: k < j < |entries| ==>
      !(entries[j].Pair? && entries[j].token == entries[k].token)
    ensures entries[k].token in Scan(entries, vocab).0
    ensures Scan(entries, vocab).0[entries[k].token] == entries[k].id
    decreases |entries|
  {
    var rest := entries[1..];
    if k == 0 {
      var token, id := entries[0].token, entries[0].id;
      forall j | 0 <= j < |rest| ensures !(rest[j].Pair? && rest[j].token == token) {
        assert rest[j] == entries[j + 1];
      }
      ScanUntouched(rest, vocab[token := id], token);
    } else {
      forall j | k - 1 < j < |rest|
        ensures !(rest[j].Pair? && rest[j].token == rest[k - 1].token)
      {
        assert rest[j] == entries[j + 1];
      }
      match entries[0]
      case Skip =>
        ScanLastWins(rest, vocab, k - 1);
      case Pair(token, id) =>
        ScanLastWins(rest, vocab[token := id], k - 1);
    }
  }

  /** A token no line names keeps the id it had before the load, or stays
      absent. */
  lemma {:induction false} ScanUntouched(entries: seq<LineParse>, vocab: map<seq<byte>, int>, token: seq<byte>)
    requires forall j :: 0 <= j < |entries| ==> !(entries[j].Pair? && entries[j].token == token)
    ensures token in Scan(entries, vocab).0 <==> token in vocab
    ensures token in vocab ==> Scan(entries, vocab).0[token] == vocab[token]
    decreases |entries|
  {
    if entries != [] {
      var rest := entries[1..];
      forall j | 0 <= j < |rest| ensures !(rest[j].Pair? && rest[j].token == token) {
        assert rest[j] == entries[j + 1];
      }
      match entries[0]
      case Skip =>
        ScanUntouched(rest, vocab, token);
      case Pair(t, id) =>
        ScanUntouched(rest, vocab[t := id], token);
      case BadId(_) =>
    }
  }
}
