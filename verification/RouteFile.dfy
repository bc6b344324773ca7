/** The `routes.db` text: what is written, what is read back, and that both agree. */
module RouteFile {
  import opened Text
  import opened RouteTable

  const HEADER := "# ip-router routes v1"
  const MAX_KEY := 256

  // ----- accepted values -----

  predicate ControlFree(s: string) {
    forall c :: c in s ==> c >= ' ' && c != '\U{7f}'
  }

  /** `valid_saved_key` */
  predicate ValidSavedKey(key: string) {
    1 <= |key| <= MAX_KEY && ControlFree(key)
  }

  predicate Octet(s: string) {
    && 1 <= |s| <= 3 && AllDigits(s)
    && (|s| > 1 ==> s[0] != '0')
    && DigitsValue(s) <= 255
  }

  /** The dotted-quad text of an address. */
  predicate ValidIpv4(s: string) {
    var parts := Split(s, '.');
    |parts| == 4 && forall p :: p in parts ==> Octet(p)
  }

  predicate ValidRecord(r: SavedRoute) {
    && ValidSavedKey(r.key) && ValidIpv4(r.ip) && ValidIpv4(r.gateway)
    && r.ttl <= MAX_INT64 && r.expiresAt <= MAX_INT64
  }

  // ----- writing -----

  function RecordFields(r: SavedRoute): seq<string> {
    [r.key, r.ip, r.gateway, Digits(r.ttl), Digits(r.expiresAt)]
  }

  /** One line, without its newline. */
  function PrintRecord(r: SavedRoute): string {
    Join(RecordFields(r), '\t')
  }

  function PrintRecords(rs: seq<SavedRoute>): string
  {
    if rs == [] then "" else PrintRecord(rs[0]) + "\n" + PrintRecords(rs[1..])
  }

  function PrintFile(rs: seq<SavedRoute>): string
  {
    HEADER + "\n" + PrintRecords(rs)
  }

  // ----- reading -----

  function ParseFields(fields: seq<string>): (r: Option<SavedRoute>)
    ensures r.Some? ==> ValidRecord(r.value)
  {
    if |fields| != 5 || !ValidSavedKey(fields[0]) || !ValidIpv4(fields[1]) || !ValidIpv4(fields[2])
    then None
    else
      var ttl := ParseNumber(fields[3]);
      var expiresAt := ParseNumber(fields[4]);
      if ttl.None? || expiresAt.None? || ttl.value < 0 || expiresAt.value < 0 then None
      else Some(SavedRoute(fields[0], fields[1], fields[2], ttl.value, expiresAt.value))
  }

  /** The accepted records of some lines; an empty line has one empty field and is rejected too. */
  function ParseLines(lines: seq<string>): (rs: seq<SavedRoute>)
    ensures forall r :: r in rs ==> ValidRecord(r)
  {
    if lines == [] then []
    else
      var r := ParseFields(Split(lines[0], '\t'));
      (if r.Some? then [r.value] else []) + ParseLines(lines[1..])
  }

  /** Only the very first line may be the header. */
  function Body(lines: seq<string>): seq<string> {
    if lines != [] && lines[0] == HEADER then lines[1..] else lines
  }

  function ParseFile(text: string): (rs: seq<SavedRoute>)
    ensures forall r :: r in rs ==> ValidRecord(r)
  {
    ParseLines(Body(Lines(text)))
  }

  // ----- round trip -----

  lemma {:induction false} SplitChars(s: string, c: char, from: nat, n: nat)
    requires from <= n < |s| && s[n] != c
    ensures exists p :: p in SplitFrom(s, c, from) && s[n] in p
    decreases |s| - from
  {
    var i := Find(s, c, from);
    var parts := SplitFrom(s, c, from);
    if n < i {
      assert parts[0][n - from] == s[n];
      assert parts[0] in parts;
    } else {
      FindExact(s, c, from, i);
      SplitChars(s, c, i + 1, n);
      var p :| p in SplitFrom(s, c, i + 1) && s[n] in p;
      assert p in parts;
    }
  }

  lemma AddressChars(ip: string, x: char)
    requires ValidIpv4(ip) && x in ip
    ensures IsDigit(x) || x == '.'
  {
    if x != '.' {
      var n :| 0 <= n < |ip| && ip[n] == x;
      SplitChars(ip, '.', 0, n);
    }
  }

  lemma NoSeparators(r: SavedRoute, c: char)
    requires ValidRecord(r) && (c == '\t' || c == '\n')
    ensures c !in r.key && c !in r.ip && c !in r.gateway
    ensures c !in Digits(r.ttl) && c !in Digits(r.expiresAt)
  {
    if c in r.ip { AddressChars(r.ip, c); }
    if c in r.gateway { AddressChars(r.gateway, c); }
  }

  lemma {:induction false} JoinChars(parts: seq<string>, c: char, x: char)
    requires parts != [] && x != c && forall p :: p in parts ==> x !in p
    ensures x !in Join(parts, c)
  {
    assert parts[0] in parts;
    if |parts| > 1 {
      JoinChars(parts[1..], c, x);
    }
  }

  /** One written line reads back as the record it was written from. */
  lemma RecordRoundTrip(r: SavedRoute)
    requires ValidRecord(r)
    ensures '\n' !in PrintRecord(r)
    ensures ParseFields(Split(PrintRecord(r), '\t')) == Some(r)
  {
    NoSeparators(r, '\n');
    NoSeparators(r, '\t');
    SplitJoin(RecordFields(r), '\t');
    JoinChars(RecordFields(r), '\t', '\n');
    NumberRoundTrip(r.ttl);
    NumberRoundTrip(r.expiresAt);
  }

  /** The line holds the record's fields, tab by tab, with these texts for its two numbers. */
  ghost predicate IsLineOf(line: string, r: SavedRoute, ttl: string, expiresAt: string) {
    && ValidRecord(r) && '\t' !in ttl && '\t' !in expiresAt
    && Numeral(ttl, r.ttl) && Numeral(expiresAt, r.expiresAt)
    && line == Join([r.key, r.ip, r.gateway, ttl, expiresAt], '\t')
  }

  /** The line holds the record's fields. */
  ghost predicate IsLine(line: string, r: SavedRoute) {
    exists ttl, expiresAt :: IsLineOf(line, r, ttl, expiresAt)
  }

  /** Which lines are accepted, and as which record: exactly those of five fields holding a valid
      record, in whatever way its two numbers are written. */
  lemma {:induction false} AcceptedExactly(line: string, r: SavedRoute)
    ensures ParseFields(Split(line, '\t')) == Some(r) <==> IsLine(line, r)
  {
    var fields := Split(line, '\t');
    if ParseFields(fields) == Some(r) {
      JoinSplit(line, '\t', 0);
      ParsedExactly(fields[3], r.ttl);
      ParsedExactly(fields[4], r.expiresAt);
      assert fields == [r.key, r.ip, r.gateway, fields[3], fields[4]];
      assert fields[3] in fields && fields[4] in fields && line[0..] == line;
      assert IsLineOf(line, r, fields[3], fields[4]);
    }
    if ttl, expiresAt :| IsLineOf(line, r, ttl, expiresAt) {
      NoSeparators(r, '\t');
      ParsedExactly(ttl, r.ttl);
      ParsedExactly(expiresAt, r.expiresAt);
      SplitJoin([r.key, r.ip, r.gateway, ttl, expiresAt], '\t');
    }
  }

  lemma {:induction false} ParseLinesAppend(a: seq<string>, b: seq<string>)
    ensures ParseLines(a + b) == ParseLines(a) + ParseLines(b)
  {
    if a == [] {
      assert a + b == b;
    } else {
      assert (a + b)[1..] == a[1..] + b;
      ParseLinesAppend(a[1..], b);
    }
  }

  /** A line yields the record it holds, if any; the others are ignored. */
  lemma {:induction false} LineExactly(line: string)
    ensures forall r :: ParseLines([line]) == [r] <==> IsLine(line, r)
    ensures ParseLines([line]) == [] <==> forall r :: !IsLine(line, r)
  {
    var parsed := ParseFields(Split(line, '\t'));
    assert ParseLines([line]) == if parsed.Some? then [parsed.value] else [];
    forall r ensures parsed == Some(r) <==> IsLine(line, r) {
      AcceptedExactly(line, r);
    }
  }

  /** Reading arbitrary lines: a record is read exactly when some line holds it. */
  lemma {:induction false} LinesExactly(lines: seq<string>, r: SavedRoute)
    ensures r in ParseLines(lines) <==> exists n :: 0 <= n < |lines| && IsLine(lines[n], r)
  {
    if lines != [] {
      LinesExactly(lines[1..], r);
      AcceptedExactly(lines[0], r);
      if r in ParseLines(lines[1..]) {
        var n :| 0 <= n < |lines| - 1 && IsLine(lines[1..][n], r);
        assert IsLine(lines[n + 1], r);
      }
      if n :| 0 <= n < |lines| && IsLine(lines[n], r) && n > 0 {
        assert IsLine(lines[1..][n - 1], r);
      }
    }
  }

  /** Reading an arbitrary file: the records of its lines in their order, bad lines ignored. The header
      holds no record, so it needs no exception. */
  lemma {:induction false} FileExactly(text: string)
    ensures ParseFile(text) == ParseLines(Lines(text))
    ensures forall r :: r in ParseFile(text) <==> exists n :: 0 <= n < |Lines(text)| && IsLine(Lines(text)[n], r)
  {
    HeaderHoldsNothing(Lines(text));
    forall r ensures r in ParseFile(text) <==> exists n :: 0 <= n < |Lines(text)| && IsLine(Lines(text)[n], r) {
      LinesExactly(Lines(text), r);
    }
  }

  lemma {:induction false} HeaderHoldsNothing(lines: seq<string>)
    ensures ParseLines(Body(lines)) == ParseLines(lines)
  {
    if lines != [] && lines[0] == HEADER {
      SplitSingle(HEADER, '\t');
      assert ParseLines(lines) == [] + ParseLines(lines[1..]);
    }
  }

  /** The text of one record's line. */
  function LineText(r: SavedRoute): string {
    r.key + "\t" + (r.ip + "\t" + (r.gateway + "\t" + (Digits(r.ttl) + "\t" + Digits(r.expiresAt))))
  }

  /** What is written, line by line. */
  lemma {:induction false} PrintedLines(rs: seq<SavedRoute>)
    requires forall r :: r in rs ==> ValidRecord(r)
    ensures var lines := Lines(PrintFile(rs));
      |lines| == |rs| + 1 && lines[0] == "# ip-router routes v1"
      && forall n :: 0 <= n < |rs| ==> lines[n + 1] == LineText(rs[n])
  {
    LinesCons(HEADER, PrintRecords(rs));
    RecordLines(rs);
  }

  lemma {:induction false} RecordLines(rs: seq<SavedRoute>)
    requires forall r :: r in rs ==> ValidRecord(r)
    ensures var lines := Lines(PrintRecords(rs));
      |lines| == |rs| && forall n :: 0 <= n < |rs| ==> lines[n] == LineText(rs[n])
  {
    if rs == [] {
      LinesOfLast("");
    } else {
      RecordRoundTrip(rs[0]);
      JoinedLine(rs[0]);
      RecordLines(rs[1..]);
      LinesCons(PrintRecord(rs[0]), PrintRecords(rs[1..]));
    }
  }

  lemma {:induction false} JoinedLine(r: SavedRoute)
    ensures PrintRecord(r) == LineText(r)
  {
    var f := RecordFields(r);
    var f1, f2, f3, f4 := f[1..], f[1..][1..], f[1..][1..][1..], f[1..][1..][1..][1..];
    assert Join(f4, '\t') == Digits(r.expiresAt);
    assert Join(f3, '\t') == Digits(r.ttl) + "\t" + Join(f4, '\t');
    assert Join(f2, '\t') == r.gateway + "\t" + Join(f3, '\t');
    assert Join(f1, '\t') == r.ip + "\t" + Join(f2, '\t');
    assert Join(f, '\t') == r.key + "\t" + Join(f1, '\t');
  }

  /** The keys the file may hold. */
  lemma KeyExactly(key: string)
    ensures ValidSavedKey(key) <==> 1 <= |key| <= 256 && forall c :: c in key ==> c as int >= 0x20 && c as int != 0x7f
  {
  }

  /** The text of the address with these four bytes. */
  function AddressText(a: nat, b: nat, c: nat, d: nat): string {
    Join([Digits(a), Digits(b), Digits(c), Digits(d)], '.')
  }

  lemma {:induction false} OctetIsByte(s: string) returns (n: nat)
    requires Octet(s)
    ensures n <= 255 && s == Digits(n)
  {
    PrintedExactly(s);
    n := DigitsValue(s);
  }

  lemma {:induction false} ByteIsOctet(n: nat)
    requires n <= 255
    ensures Octet(Digits(n))
  {
    DigitsValueInverse(n);
    PrintedExactly(Digits(n));
    ShortDigits(n);
  }

  lemma ShortDigits(n: nat)
    requires n <= 255
    ensures |Digits(n)| <= 3
  {
    assert n >= 10 ==> |Digits(n)| == |Digits(n / 10)| + 1;
    assert n / 10 >= 10 ==> |Digits(n / 10)| == |Digits(n / 10 / 10)| + 1;
    assert n / 10 / 10 < 10 && |Digits(n / 10 / 10)| == 1;
  }

  /** An address is the text of four bytes, and nothing else is. */
  lemma {:induction false} AddressExactly(s: string)
    ensures ValidIpv4(s) <==>
      exists a: nat, b: nat, c: nat, d: nat ::
        a <= 255 && b <= 255 && c <= 255 && d <= 255 && s == AddressText(a, b, c, d)
  {
    var parts := Split(s, '.');
    if ValidIpv4(s) {
      JoinSplit(s, '.', 0);
      assert parts[0] in parts && parts[1] in parts && parts[2] in parts && parts[3] in parts;
      var a := OctetIsByte(parts[0]);
      var b := OctetIsByte(parts[1]);
      var c := OctetIsByte(parts[2]);
      var d := OctetIsByte(parts[3]);
      assert parts == [Digits(a), Digits(b), Digits(c), Digits(d)] && s[0..] == s;
      assert s == AddressText(a, b, c, d);
    }
    if a: nat, b: nat, c: nat, d: nat :|
      a <= 255 && b <= 255 && c <= 255 && d <= 255 && s == AddressText(a, b, c, d) {
      AddressIsValid(a, b, c, d);
    }
  }

  lemma {:induction false} AddressIsValid(a: nat, b: nat, c: nat, d: nat)
    requires a <= 255 && b <= 255 && c <= 255 && d <= 255
    ensures ValidIpv4(AddressText(a, b, c, d))
  {
    SplitJoin([Digits(a), Digits(b), Digits(c), Digits(d)], '.');
    ByteIsOctet(a);
    ByteIsOctet(b);
    ByteIsOctet(c);
    ByteIsOctet(d);
  }

  lemma {:induction false} RecordsRoundTrip(rs: seq<SavedRoute>)
    requires forall r :: r in rs ==> ValidRecord(r)
    ensures ParseLines(Lines(PrintRecords(rs))) == rs
  {
    if rs != [] {
      RecordRoundTrip(rs[0]);
      RecordsRoundTrip(rs[1..]);
      LinesCons(PrintRecord(rs[0]), PrintRecords(rs[1..]));
      var lines := Lines(PrintRecords(rs));
      assert lines[0] == PrintRecord(rs[0]) && lines[1..] == Lines(PrintRecords(rs[1..]));
    }
  }

  /** Writing any list of valid records and reading the text back gives exactly that list. */
  lemma FileRoundTrip(rs: seq<SavedRoute>)
    requires forall r :: r in rs ==> ValidRecord(r)
    ensures ParseFile(PrintFile(rs)) == rs
  {
    LinesCons(HEADER, PrintRecords(rs));
    var lines := Lines(PrintFile(rs));
    assert lines[0] == HEADER && lines[1..] == Lines(PrintRecords(rs));
    RecordsRoundTrip(rs);
  }

  /** The HTTP layer's `valid_route_key`; an absent key is the empty string there. */
  predicate ValidRouteKey(key: string) {
    key == "" || (|key| <= MAX_KEY && ControlFree(key))
  }

  lemma ServiceKeysAreSavable(key: string)
    ensures key != "" && ValidRouteKey(key) <==> ValidSavedKey(key)
  {
  }

  // ----- the two loops of the reader and the writer -----

  method SplitFields(line: string) returns (fields: seq<string>)
    ensures fields == Split(line, '\t')
  {
    fields := [];
    var begin := 0;
    while true
      invariant 0 <= begin <= |line|
      invariant Split(line, '\t') == fields + SplitFrom(line, '\t', begin)
      decreases |line| - begin
    {
      var separator := Find(line, '\t', begin);
      fields := fields + [line[begin..separator]];
      if separator == |line| {
        break;
      }
      begin := separator + 1;
    }
  }

  method ParseLine(line: string) returns (record: Option<SavedRoute>)
    ensures record == ParseFields(Split(line, '\t'))
  {
    if line == "" {
      SplitSingle(line, '\t');
      return None;
    }
    var fields := SplitFields(line);
    record := ParseFields(fields);
  }

  /** The lines the `std::getline` calls deliver, one after the other. */
  method ReadLines(text: string) returns (lines: seq<string>)
    ensures lines == Lines(text)
  {
    lines := [];
    var pos := 0;
    ghost var rest := Lines(text);
    while pos < |text|
      invariant 0 <= pos <= |text|
      invariant rest == LinesFrom(text, pos)
      invariant Lines(text) == lines + rest
    {
      var end := Find(text, '\n', pos);
      var next := if end < |text| then end + 1 else end;
      LinesStep(text, pos);
      MoveOne(lines, rest, text[pos..end], LinesFrom(text, next));
      lines, rest, pos := lines + [text[pos..end]], LinesFrom(text, next), next;
    }
    assert rest == [] by { LinesStep(text, pos); }
  }

  /** The head of what is left moves to the end of what is done. */
  lemma MoveOne<T>(done: seq<T>, rest: seq<T>, x: T, tail: seq<T>)
    requires rest == [x] + tail
    ensures done + rest == done + [x] + tail
  {
  }

  method ReadSaved(text: string) returns (saved: seq<SavedRoute>)
    ensures saved == ParseFile(text)
  {
    var lines := ReadLines(text);
    saved := CollectRecords(lines);
  }

  /** The records among the lines, the line counter telling the header from a record. */
  method CollectRecords(lines: seq<string>) returns (saved: seq<SavedRoute>)
    ensures saved == ParseLines(Body(lines))
  {
    saved := [];
    var lineNumber := 0;
    ghost var rest := Body(lines);
    while lineNumber < |lines|
      invariant 0 <= lineNumber <= |lines|
      invariant rest == if lineNumber == 0 then Body(lines) else lines[lineNumber..]
      invariant ParseLines(Body(lines)) == saved + ParseLines(rest)
    {
      var line := lines[lineNumber];
      lineNumber := lineNumber + 1;
      if lineNumber == 1 && line == HEADER {
        continue;
      }
      assert rest[0] == line && rest[1..] == lines[lineNumber..];
      rest := rest[1..];
      var record := ParseLine(line);
      if record.None? {
        continue;
      }
      MoveOne(saved, [record.value] + ParseLines(rest), record.value, ParseLines(rest));
      saved := saved + [record.value];
    }
  }

  lemma {:induction false} PrintRecordsAppend(a: seq<SavedRoute>, b: seq<SavedRoute>)
    ensures PrintRecords(a + b) == PrintRecords(a) + PrintRecords(b)
  {
    if a == [] {
      assert a + b == b;
    } else {
      assert (a + b)[1..] == a[1..] + b;
      PrintRecordsAppend(a[1..], b);
    }
  }

  lemma PrintRecordsSnoc(rs: seq<SavedRoute>, n: nat)
    requires n < |rs|
    ensures PrintRecords(rs[..n + 1]) == PrintRecords(rs[..n]) + PrintRecord(rs[n]) + "\n"
  {
    assert rs[..n + 1] == rs[..n] + [rs[n]];
    PrintRecordsAppend(rs[..n], [rs[n]]);
    assert PrintRecords([rs[n]]) == PrintRecord(rs[n]) + "\n" + "";
  }

  /** Every entry can be written: the values the loader and the HTTP layer let through. */
  ghost predicate Savable(t: Table) {
    forall k, i :: Entry(t, k, i).Some? ==> ValidRecord(RecordOf(k, i, Entry(t, k, i).value))
  }

  /** Saving a table and reading the file back gives its records, each once, in table order. */
  lemma TableRoundTrip(t: Table)
    requires Savable(t)
    ensures ParseFile(PrintFile(Records(t))) == Records(t)
    ensures forall r :: r in Records(t) <==> IsRecord(t, r)
  {
    RecordsExact(t);
    forall r | r in Records(t) ensures ValidRecord(r) {
      assert Entry(t, r.key, r.ip).Some?;
    }
    FileRoundTrip(Records(t));
  }

  /** The text `save_routes_locked` writes. */
  method Render(t: Table) returns (output: string)
    ensures output == PrintFile(Records(t))
  {
    var body := RenderGroups(t);
    output := HEADER + "\n" + body;
  }

  method RenderGroups(t: Table) returns (output: string)
    ensures output == PrintRecords(Records(t))
  {
    output := "";
    var keys := Sorted(t.Keys);
    var n := 0;
    ghost var done: seq<SavedRoute> := [];
    while n < |keys|
      invariant 0 <= n <= |keys|
      invariant done == KeyedRecords(t, keys[..n])
      invariant output == PrintRecords(done)
    {
      var k := keys[n];
      assert k in t.Keys;
      var lines := RenderGroup(k, t[k]);
      KeyedRecordsSnoc(t, keys, n);
      PrintRecordsAppend(done, RecordsOfKey(t, k));
      output := output + lines;
      done := done + RecordsOfKey(t, k);
      n := n + 1;
    }
    assert keys[..n] == keys;
  }

  lemma KeyedRecordsSnoc(t: Table, keys: seq<string>, n: nat)
    requires n < |keys|
    ensures KeyedRecords(t, keys[..n + 1]) == KeyedRecords(t, keys[..n]) + RecordsOfKey(t, keys[n])
  {
    assert keys[..n + 1][..n] == keys[..n] && keys[..n + 1][n] == keys[n];
  }

  method RenderGroup(k: string, g: Group) returns (output: string)
    ensures output == PrintRecords(GroupRecords(k, g, Sorted(g.Keys)))
  {
    output := "";
    var ips := Sorted(g.Keys);
    ghost var all := GroupRecords(k, g, ips);
    var n := 0;
    while n < |ips|
      invariant 0 <= n <= |ips|
      invariant output == PrintRecords(all[..n])
    {
      assert ips[n] in g;
      PrintRecordsSnoc(all, n);
      output := output + PrintRecord(RecordOf(k, ips[n], g[ips[n]])) + "\n";
      n := n + 1;
    }
    assert all[..n] == all;
  }
}
