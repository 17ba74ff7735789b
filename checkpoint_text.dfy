/** The text formats the checkpoint table is loaded from (Checkpoints.cpp).

    A checkpoint file is split into lines at `\r\n`, `\n\r`, `\n` or `\r`
    (tried in that order where a break starts), and each line into fields
    at the commas that stand outside double quotes: those followed on the
    line by an even number of `"`. Both splits are token iterators over the
    text between separators; such an iterator yields the empty piece between
    two adjacent separators but not a final empty piece, so that an empty
    text has no lines and a trailing line break adds none.

    A DNS record is `<height>:<hash>`. Heights are written in decimal. */
module CheckpointText {
  import opened Wrappers
  import opened Crypto
  import Multimap

  predicate IsBreakChar(c: char) {
    c == '\r' || c == '\n'
  }

  /** No line break character anywhere in s. */
  predicate NoBreaks(s: string) {
    forall i :: 0 <= i < |s| ==> !IsBreakChar(s[i])
  }

  /** The four separators of the line splitter. */
  predicate IsLineBreak(sep: string) {
    sep == "\r\n" || sep == "\n\r" || sep == "\n" || sep == "\r"
  }

  /** The length of the line break at the start of s under the alternation
      `\r\n|\n\r|\n|\r`, or 0 when s does not start with one. */
  function BreakLength(s: string): (n: nat)
    ensures n <= |s|
    ensures n > 0 <==> |s| > 0 && IsBreakChar(s[0])
  {
    if |s| == 0 then 0
    else if s[0] == '\r' then (if |s| > 1 && s[1] == '\n' then 2 else 1)
    else if s[0] == '\n' then (if |s| > 1 && s[1] == '\r' then 2 else 1)
    else 0
  }

  /** The pieces of s between line breaks: at least one, maybe empty. */
  function LinePieces(s: string): (r: seq<string>)
    ensures |r| >= 1
    decreases |s|
  {
    if |s| == 0 then [""]
    else if BreakLength(s) > 0 then [""] + LinePieces(s[BreakLength(s)..])
    else
      var rest := LinePieces(s[1..]);
      [[s[0]] + rest[0]] + rest[1..]
  }

  /** What a token iterator with submatch -1 yields from the pieces. */
  function DropFinalEmpty(pieces: seq<string>): seq<string> {
    if |pieces| > 0 && pieces[|pieces| - 1] == "" then pieces[..|pieces| - 1] else pieces
  }

  /** The lines of a checkpoint file. */
  function SplitLines(text: string): seq<string> {
    DropFinalEmpty(LinePieces(text))
  }

  /** No line holds a line break character. */
  lemma {:induction false} LinePiecesHaveNoBreaks(s: string)
    ensures forall j :: 0 <= j < |LinePieces(s)| ==> NoBreaks(LinePieces(s)[j])
    decreases |s|
  {
    if |s| > 0 {
      if BreakLength(s) > 0 {
        LinePiecesHaveNoBreaks(s[BreakLength(s)..]);
      } else {
        LinePiecesHaveNoBreaks(s[1..]);
      }
    }
  }

  lemma SplitLinesHaveNoBreaks(text: string)
    ensures forall j :: 0 <= j < |SplitLines(text)| ==> NoBreaks(SplitLines(text)[j])
  {
    LinePiecesHaveNoBreaks(text);
  }

  /** The lines joined with one separator, the inverse of `SplitLines`. */
  function JoinLines(lines: seq<string>, sep: string): string {
    if |lines| == 0 then ""
    else if |lines| == 1 then lines[0]
    else lines[0] + (sep + JoinLines(lines[1..], sep))
  }

  /** Text without breaks sticks to the first piece of what follows it. */
  lemma {:induction false} LinePiecesPrefix(l: string, t: string)
    requires NoBreaks(l)
    ensures LinePieces(l + t) == [l + LinePieces(t)[0]] + LinePieces(t)[1..]
  {
    if |l| == 0 {
      assert l + t == t;
      assert l + LinePieces(t)[0] == LinePieces(t)[0];
      assert [LinePieces(t)[0]] + LinePieces(t)[1..] == LinePieces(t);
    } else {
      assert (l + t)[0] == l[0];
      assert (l + t)[1..] == l[1..] + t;
      LinePiecesPrefix(l[1..], t);
      assert [l[0]] + (l[1..] + LinePieces(t)[0]) == l + LinePieces(t)[0];
    }
  }

  /** A joined text starts with a character of its first line or, when that
      line is empty, with the separator. */
  lemma {:induction false} JoinLinesStart(lines: seq<string>, sep: string)
    requires IsLineBreak(sep)
    requires forall j :: 0 <= j < |lines| ==> NoBreaks(lines[j])
    ensures var t := JoinLines(lines, sep); |t| == 0 || !IsBreakChar(t[0]) || t[0] == sep[0]
  {
    if |lines| > 1 && |lines[0]| == 0 {
      assert JoinLines(lines, sep) == lines[0] + (sep + JoinLines(lines[1..], sep));
    } else if |lines| > 1 {
      assert JoinLines(lines, sep)[0] == lines[0][0];
    }
  }

  /** A separator ends a piece when what follows cannot lengthen the break. */
  lemma LinePiecesAfterBreak(sep: string, t: string)
    requires IsLineBreak(sep)
    requires |t| == 0 || !IsBreakChar(t[0]) || t[0] == sep[0]
    ensures LinePieces(sep + t) == [""] + LinePieces(t)
  {
    assert BreakLength(sep + t) == |sep|;
    assert (sep + t)[|sep|..] == t;
  }

  /** A line, a break and the rest split into the line and the pieces of the rest. */
  lemma LinePiecesCons(l: string, sep: string, t: string)
    requires NoBreaks(l) && IsLineBreak(sep)
    requires |t| == 0 || !IsBreakChar(t[0]) || t[0] == sep[0]
    ensures LinePieces(l + (sep + t)) == [l] + LinePieces(t)
  {
    var p := LinePieces(sep + t);
    assert p[0] == "" && p[1..] == LinePieces(t) by {
      LinePiecesAfterBreak(sep, t);
    }
    LinePiecesPrefix(l, sep + t);
    assert l + p[0] == l;
  }

  /** Joining lines with a break and splitting the pieces again gives the lines back. */
  lemma {:induction false} LinePiecesJoin(lines: seq<string>, sep: string)
    requires IsLineBreak(sep) && |lines| > 0
    requires forall j :: 0 <= j < |lines| ==> NoBreaks(lines[j])
    ensures LinePieces(JoinLines(lines, sep)) == lines
  {
    if |lines| == 1 {
      LinePiecesPrefix(lines[0], "");
      assert lines[0] + "" == lines[0];
    } else {
      var rest := lines[1..];
      assert forall j :: 0 <= j < |rest| ==> rest[j] == lines[j + 1];
      LinePiecesJoin(rest, sep);
      JoinLinesStart(rest, sep);
      LinePiecesCons(lines[0], sep, JoinLines(rest, sep));
      assert [lines[0]] + rest == lines;
    }
  }

  /** The file splitter inverts `JoinLines` whenever the last line is not empty. */
  lemma SplitLinesJoin(lines: seq<string>, sep: string)
    requires IsLineBreak(sep)
    requires forall j :: 0 <= j < |lines| ==> NoBreaks(lines[j])
    requires |lines| > 0 ==> lines[|lines| - 1] != ""
    ensures SplitLines(JoinLines(lines, sep)) == lines
  {
    if |lines| > 0 {
      LinePiecesJoin(lines, sep);
    }
  }

  /** The number of double quotes in s. */
  function QuoteCount(s: string): nat {
    if |s| == 0 then 0 else (if s[0] == '"' then 1 else 0) + QuoteCount(s[1..])
  }

  /** A comma followed by an even number of quotes is a field separator. */
  predicate IsFieldSeparator(s: string) {
    |s| > 0 && s[0] == ',' && QuoteCount(s[1..]) % 2 == 0
  }

  /** The pieces of a line between field separators: at least one, maybe empty. */
  function FieldPieces(s: string): (r: seq<string>)
    ensures |r| >= 1
  {
    if |s| == 0 then [""]
    else if IsFieldSeparator(s) then [""] + FieldPieces(s[1..])
    else
      var rest := FieldPieces(s[1..]);
      [[s[0]] + rest[0]] + rest[1..]
  }

  /** The fields of a checkpoint line. */
  function SplitFields(line: string): seq<string> {
    DropFinalEmpty(FieldPieces(line))
  }

  /** Every comma of f is followed in f by an odd number of quotes: it stands inside quotes. */
  predicate CommasInsideQuotes(f: string) {
    forall i :: 0 <= i < |f| && f[i] == ',' ==> QuoteCount(f[i + 1..]) % 2 == 1
  }

  /** A field whose commas all stand inside quotes, with its quotes balanced. */
  predicate WellQuoted(f: string) {
    QuoteCount(f) % 2 == 0 && CommasInsideQuotes(f)
  }

  /** The fields joined with commas. */
  function JoinFields(fields: seq<string>): string {
    if |fields| == 0 then ""
    else if |fields| == 1 then fields[0]
    else fields[0] + ("," + JoinFields(fields[1..]))
  }

  lemma {:induction false} QuoteCountAppend(a: string, b: string)
    ensures QuoteCount(a + b) == QuoteCount(a) + QuoteCount(b)
  {
    if |a| == 0 {
      assert a + b == b;
    } else {
      assert (a + b)[1..] == a[1..] + b;
      QuoteCountAppend(a[1..], b);
    }
  }

  /** A line that does not start with a separator adds its first character to the first piece. */
  lemma FieldPiecesNoSplit(s: string)
    requires |s| > 0 && !IsFieldSeparator(s)
    ensures FieldPieces(s) == [[s[0]] + FieldPieces(s[1..])[0]] + FieldPieces(s[1..])[1..]
  {
  }

  /** A field none of whose commas separates sticks to the first piece of what follows. */
  lemma {:induction false} FieldPiecesPrefix(f: string, t: string)
    requires CommasInsideQuotes(f) && QuoteCount(t) % 2 == 0
    ensures FieldPieces(f + t) == [f + FieldPieces(t)[0]] + FieldPieces(t)[1..]
  {
    if |f| == 0 {
      assert f + t == t;
      assert f + FieldPieces(t)[0] == FieldPieces(t)[0];
      assert [FieldPieces(t)[0]] + FieldPieces(t)[1..] == FieldPieces(t);
    } else {
      var u := f[1..];
      var p := FieldPieces(t);
      assert FieldPieces(f + t) == [[f[0]] + FieldPieces(u + t)[0]] + FieldPieces(u + t)[1..] by {
        NoSeparatorAtStart(f, t);
        FieldPiecesNoSplit(f + t);
        assert (f + t)[0] == f[0] && (f + t)[1..] == u + t;
      }
      assert FieldPieces(u + t) == [u + p[0]] + p[1..] by {
        CommasInsideQuotesTail(f);
        FieldPiecesPrefix(u, t);
      }
      assert [f[0]] + (u + p[0]) == f + p[0];
    }
  }

  /** A field whose commas stand inside quotes does not start with a separator,
      whatever balanced text follows it. */
  lemma NoSeparatorAtStart(f: string, t: string)
    requires CommasInsideQuotes(f) && QuoteCount(t) % 2 == 0 && |f| > 0
    ensures !IsFieldSeparator(f + t)
  {
    assert (f + t)[1..] == f[1..] + t;
    QuoteCountAppend(f[1..], t);
    if f[0] == ',' {
      assert QuoteCount(f[1..]) % 2 == 1;
    }
  }

  lemma CommasInsideQuotesTail(f: string)
    requires CommasInsideQuotes(f) && |f| > 0
    ensures CommasInsideQuotes(f[1..])
  {
    var u := f[1..];
    forall i | 0 <= i < |u| && u[i] == ','
      ensures QuoteCount(u[i + 1..]) % 2 == 1
    {
      assert u[i + 1..] == f[i + 2..];
      assert f[i + 1] == ',';
    }
  }

  lemma {:induction false} JoinFieldsQuotes(fields: seq<string>)
    requires forall j :: 0 <= j < |fields| ==> WellQuoted(fields[j])
    ensures QuoteCount(JoinFields(fields)) % 2 == 0
  {
    if |fields| > 1 {
      JoinFieldsQuotes(fields[1..]);
      QuoteCountAppend(",", JoinFields(fields[1..]));
      QuoteCountAppend(fields[0], "," + JoinFields(fields[1..]));
      assert QuoteCount(",") == 0;
    }
  }

  /** A comma before text with balanced quotes separates. */
  lemma FieldPiecesAfterSeparator(t: string)
    requires QuoteCount(t) % 2 == 0
    ensures QuoteCount("," + t) == QuoteCount(t)
    ensures FieldPieces("," + t) == [""] + FieldPieces(t)
  {
    assert ("," + t)[1..] == t;
    assert IsFieldSeparator("," + t);
  }

  /** A well-quoted field, a comma and text with balanced quotes split into
      the field and the pieces of the text. */
  lemma FieldPiecesCons(f: string, t: string)
    requires WellQuoted(f) && QuoteCount(t) % 2 == 0
    ensures FieldPieces(f + ("," + t)) == [f] + FieldPieces(t)
  {
    var p := FieldPieces("," + t);
    assert p[0] == "" && p[1..] == FieldPieces(t) && QuoteCount("," + t) % 2 == 0 by {
      FieldPiecesAfterSeparator(t);
    }
    FieldPiecesPrefix(f, "," + t);
    assert f + p[0] == f;
  }

  /** Joining well-quoted fields with commas and splitting the line again
      gives the fields back: a comma inside quotes never splits a field. */
  lemma {:induction false} FieldPiecesJoin(fields: seq<string>)
    requires |fields| > 0
    requires forall j :: 0 <= j < |fields| ==> WellQuoted(fields[j])
    ensures FieldPieces(JoinFields(fields)) == fields
  {
    if |fields| == 1 {
      assert QuoteCount("") == 0;
      FieldPiecesPrefix(fields[0], "");
      assert fields[0] + "" == fields[0];
    } else {
      var rest := fields[1..];
      assert forall j :: 0 <= j < |rest| ==> rest[j] == fields[j + 1];
      FieldPiecesJoin(rest);
      JoinFieldsQuotes(rest);
      FieldPiecesCons(fields[0], JoinFields(rest));
      assert [fields[0]] + rest == fields;
    }
  }

  /** The line splitter inverts `JoinFields` whenever the last field is not empty. */
  lemma SplitFieldsJoin(fields: seq<string>)
    requires forall j :: 0 <= j < |fields| ==> WellQuoted(fields[j])
    requires |fields| > 0 ==> fields[|fields| - 1] != ""
    ensures SplitFields(JoinFields(fields)) == fields
  {
    if |fields| > 0 {
      FieldPiecesJoin(fields);
    }
  }

  predicate IsDigit(c: char) {
    '0' <= c <= '9'
  }

  predicate AllDigits(s: string) {
    forall i :: 0 <= i < |s| ==> IsDigit(s[i])
  }

  /** The value of a string of decimal digits. */
  function DigitsValue(s: string): nat
    requires AllDigits(s)
  {
    if |s| == 0 then 0 else DigitsValue(s[..|s| - 1]) * 10 + (s[|s| - 1] - '0') as nat
  }

  /** A non-empty string of decimal digits and its value. */
  function ParseDecimal(s: string): (r: Option<nat>)
    ensures r.Some? <==> |s| > 0 && AllDigits(s)
  {
    if |s| > 0 && AllDigits(s) then Some(DigitsValue(s)) else None
  }

  /** The decimal text of n, without leading zeros. */
  function DecimalText(n: nat): (s: string)
    ensures |s| > 0 && AllDigits(s)
  {
    if n < 10 then ['0' + n as char] else DecimalText(n / 10) + ['0' + (n % 10) as char]
  }

  lemma {:induction false} DecimalRoundTrip(n: nat)
    ensures ParseDecimal(DecimalText(n)) == Some(n)
  {
    var s := DecimalText(n);
    if n >= 10 {
      DecimalRoundTrip(n / 10);
      assert s[..|s| - 1] == DecimalText(n / 10);
      assert s[|s| - 1] == '0' + (n % 10) as char;
      assert (s[|s| - 1] - '0') as nat == n % 10;
    } else {
      assert s[..0] == [];
      assert DigitsValue(s[..0]) == 0;
      assert (s[0] - '0') as nat == n;
      assert DigitsValue(s) == n;
    }
  }

  /** The largest `int`. */
  const IntMax: nat := 0x7FFF_FFFF
  /** The largest `uint32_t`. */
  const Uint32Max: nat := 0xFFFF_FFFF

  /** The two exceptions `std::stoi` throws. */
  datatype StoiError = InvalidArgument | OutOfRange

  /** White space as `isspace` has it in the C locale. */
  predicate IsSpace(c: char) {
    c == ' ' || '\t' <= c <= '\r'
  }

  function LeadingSpaces(s: string): (n: nat)
    ensures n <= |s|
    ensures forall i :: 0 <= i < n ==> IsSpace(s[i])
    ensures n == |s| || !IsSpace(s[n])
  {
    if |s| > 0 && IsSpace(s[0]) then 1 + LeadingSpaces(s[1..]) else 0
  }

  function LeadingDigits(s: string): (n: nat)
    ensures n <= |s|
    ensures forall i :: 0 <= i < n ==> IsDigit(s[i])
    ensures n == |s| || !IsDigit(s[n])
  {
    if |s| > 0 && IsDigit(s[0]) then 1 + LeadingDigits(s[1..]) else 0
  }

  /** `std::stoi` in base 10: white space, an optional sign, and the longest
      run of digits after them, which must not be empty; whatever follows
      the digits is ignored. A value outside `int` throws. */
  function Stoi(s: string): (r: Result<int, StoiError>)
    ensures r.Success? ==> -(IntMax as int) - 1 <= r.value <= IntMax
  {
    var t := s[LeadingSpaces(s)..];
    if |t| > 0 && (t[0] == '-' || t[0] == '+') then StoiDigits(t[0] == '-', t[1..])
    else StoiDigits(false, t)
  }

  /** What `stoi` makes of the text after the white space and the sign. */
  function StoiDigits(negative: bool, u: string): (r: Result<int, StoiError>)
    ensures r.Success? ==> -(IntMax as int) - 1 <= r.value <= IntMax
  {
    var n := LeadingDigits(u);
    if n == 0 then Failure(InvalidArgument)
    else
      var magnitude: int := DigitsValue(u[..n]);
      var v := if negative then -magnitude else magnitude;
      if -(IntMax as int) - 1 <= v <= IntMax then Success(v) else Failure(OutOfRange)
  }

  /** A decimal number is read back by `stoi` when it is an `int` and throws
      `out_of_range` when it is larger, whatever non-digit text follows it. */
  lemma StoiDecimal(n: nat, trailer: string)
    requires |trailer| == 0 || !IsDigit(trailer[0])
    ensures Stoi(DecimalText(n) + trailer) == if n <= IntMax then Success(n) else Failure(OutOfRange)
  {
    var d := DecimalText(n);
    var s := d + trailer;
    assert !IsSpace(s[0]);
    assert LeadingSpaces(s) == 0;
    assert !(s[0] == '-' || s[0] == '+');
    LeadingDigitsAppend(d, trailer);
    assert s[..|d|] == d;
    DecimalRoundTrip(n);
  }

  /** A minus sign and a decimal number are read by `stoi` as the negated
      number when that is an `int`, and throw `out_of_range` when it is
      smaller, whatever non-digit text follows. */
  lemma StoiNegativeDecimal(n: nat, trailer: string)
    requires |trailer| == 0 || !IsDigit(trailer[0])
    ensures Stoi("-" + DecimalText(n) + trailer) == if n <= IntMax + 1 then Success(-(n as int)) else Failure(OutOfRange)
  {
    StoiMinus(DecimalText(n), trailer);
    DigitsPrefix(DecimalText(n), trailer);
    DecimalRoundTrip(n);
  }

  /** After a minus sign `stoi` reads the rest as a negative number. */
  lemma StoiMinus(d: string, trailer: string)
    ensures Stoi("-" + d + trailer) == StoiDigits(true, d + trailer)
  {
    var s := "-" + d + trailer;
    assert !IsSpace(s[0]);
    assert s[0..] == s;
    assert s[1..] == d + trailer;
  }

  /** Digits followed by a non-digit are the leading run of digits. */
  lemma DigitsPrefix(d: string, trailer: string)
    requires AllDigits(d)
    requires |trailer| == 0 || !IsDigit(trailer[0])
    ensures LeadingDigits(d + trailer) == |d| && (d + trailer)[..|d|] == d
  {
    LeadingDigitsAppend(d, trailer);
    assert (d + trailer)[..|d|] == d;
  }

  lemma {:induction false} LeadingDigitsAppend(d: string, trailer: string)
    requires AllDigits(d)
    requires |trailer| == 0 || !IsDigit(trailer[0])
    ensures LeadingDigits(d + trailer) == |d|
  {
    if |d| > 0 {
      assert (d + trailer)[1..] == d[1..] + trailer;
      LeadingDigitsAppend(d[1..], trailer);
    } else {
      assert d + trailer == trailer;
    }
  }

  /** A row's height: the `int` from `stoi` narrowed to `uint32_t`, so that
      a negative value wraps around to 2^32 plus it. */
  function StoiAsUint32(field: string): (r: Result<nat, StoiError>)
    ensures r.Success? <==> Stoi(field).Success?
    ensures r.Failure? ==> r.error == Stoi(field).error
    ensures r.Success? ==> r.value <= Uint32Max
    ensures r.Success? && 0 <= Stoi(field).value ==> r.value == Stoi(field).value
    ensures r.Success? ==> r.value == Stoi(field).value % (Uint32Max + 1)
  {
    match Stoi(field)
    case Success(v) =>
      NarrowIsModulo(v);
      Success(if v < 0 then v + Uint32Max + 1 else v)
    case Failure(e) => Failure(e)
  }

  /** Adding 2^32 to a negative `int` is its value modulo 2^32. */
  lemma NarrowIsModulo(v: int)
    requires -(IntMax as int) - 1 <= v <= IntMax
    ensures v % (Uint32Max + 1) == if v < 0 then v + Uint32Max + 1 else v
  {
    if v < 0 {
      assert v == (Uint32Max + 1) * -1 + (v + Uint32Max + 1);
    }
  }

  /** The height text of a DNS record read as a `uint32_t`, and the first 64
      characters of the text after the separator as the hash. */
  function ReadDnsFields(heightText: string, rest: string): (r: Option<(nat, string)>)
    ensures r.Some? ==> r.value.0 <= Uint32Max && HashFromHex(r.value.1).Some?
    ensures r.Some? ==> 2 * HashSize <= |rest| && r.value.1 == rest[..2 * HashSize]
  {
    var hashText := if 2 * HashSize <= |rest| then rest[..2 * HashSize] else rest;
    match ParseDecimal(heightText)
    case Some(h) => if h <= Uint32Max && HashFromHex(hashText).Some? then Some((h, hashText)) else None
    case None => None
  }

  /** A DNS TXT record as the loader reads it: `find_first_of` gives `npos`
      when there is no ':', which becomes -1 as an `int`, so that the height
      text is then the whole record and the hash text its first 64 characters. */
  function ParseDnsRecordAsWritten(record: string): (r: Option<(nat, string)>)
    ensures r.Some? ==> r.value.0 <= Uint32Max && HashFromHex(r.value.1).Some?
  {
    if ':' in record then
      var del := Multimap.IndexOf(record, ':');
      ReadDnsFields(record[..del], record[del + 1..])
    else
      ReadDnsFields(record, record)
  }

  /** A DNS TXT record `<height>:<hash>`: the height is the whole text before
      the first ':', the hash the 64 characters after it. A record without
      ':' is refused. */
  function ParseDnsRecord(record: string): (r: Option<(nat, string)>)
    ensures r.Some? ==> ':' in record
    ensures r.Some? ==> r.value.0 <= Uint32Max && HashFromHex(r.value.1).Some?
  {
    if ':' in record then
      var del := Multimap.IndexOf(record, ':');
      ReadDnsFields(record[..del], record[del + 1..])
    else
      None
  }

  /** Which reading of a DNS record a loader applies: the code's, or the
      corrected one that refuses records without ':'. */
  datatype RecordReading = AsWritten | Corrected

  function ReadDnsRecord(reading: RecordReading, record: string): (r: Option<(nat, string)>)
    ensures r.Some? ==> r.value.0 <= Uint32Max && HashFromHex(r.value.1).Some?
  {
    match reading
    case AsWritten => ParseDnsRecordAsWritten(record)
    case Corrected => ParseDnsRecord(record)
  }

  /** The two readings differ only on records without a separator. */
  lemma DnsReadingsAgree(record: string)
    requires ':' in record
    ensures ParseDnsRecordAsWritten(record) == ParseDnsRecord(record)
  {
  }

  function Zeros(k: nat): string {
    seq(k, _ => '0')
  }

  lemma {:induction false} ZerosValue(k: nat)
    ensures AllDigits(Zeros(k)) && DigitsValue(Zeros(k)) == 0
  {
    if k > 0 {
      assert Zeros(k)[..k - 1] == Zeros(k - 1);
      ZerosValue(k - 1);
    }
  }

  /** A record of 64 decimal digits and no ':' is read as written, height
      and hash both taken from the same digits, where it should be refused. */
  lemma ColonlessRecordAccepted()
    ensures var record := Zeros(2 * HashSize - 1) + "5";
      && ParseDnsRecordAsWritten(record) == Some((5, record))
      && ParseDnsRecord(record) == None
  {
    var record := Zeros(2 * HashSize - 1) + "5";
    ZerosValue(2 * HashSize - 1);
    assert record[..|record| - 1] == Zeros(2 * HashSize - 1);
    assert forall i :: 0 <= i < |record| ==> IsDigit(record[i]) && record[i] != ':';
    assert DigitsValue(record) == 5;
    assert record[..2 * HashSize] == record;
  }

  /** A record written as height, ':' and hash text is read back, whatever follows the 64 digits of the hash. */
  lemma DnsRecordRoundTrip(height: nat, h: Hash, trailer: string)
    requires height <= Uint32Max
    ensures ParseDnsRecord(DecimalText(height) + ":" + HashToHex(h) + trailer) == Some((height, HashToHex(h)))
  {
    var d := DecimalText(height);
    var record := d + ":" + HashToHex(h) + trailer;
    assert record[|d|] == ':';
    forall j | 0 <= j < |d|
      ensures record[j] != ':'
    {
      assert record[j] == d[j];
      assert IsDigit(d[j]);
    }
    assert ':' in record;
    var del := Multimap.IndexOf(record, ':');
    assert del == |d|;
    assert record[..del] == d;
    assert record[del + 1..][..2 * HashSize] == HashToHex(h);
    DecimalRoundTrip(height);
    HexRoundTrip(h);
  }

  /** The text of a C string: everything before the first NUL. */
  function UpToNul(s: string): (t: string)
    ensures '\0' !in t
    ensures t <= s
    ensures '\0' in s ==> |t| < |s| && s[|t|] == '\0'
  {
    if '\0' in s then s[..Multimap.IndexOf(s, '\0')] else s
  }
}
