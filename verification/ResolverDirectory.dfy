/** The directory of resolver files: marker-guarded adds, removes and the listing. */
module ResolverDirectory {
  import opened Text
  import opened DomainNames

  const MARKER := "# managed by ip-router"
  const CREATED := "# created_at="

  // ----- the files -----

  /** A directory entry: a regular file, or anything else (a link, a directory, a device). */
  datatype Node = Regular(text: string) | Other

  /** What the resolver path is. */
  datatype Kind = Missing | NotDirectory | Directory

  datatype State = State(kind: Kind, files: map<string, Node>)

  datatype Config = Config(pid: nat, nameserver: string, port: nat, searchOrder: nat)

  function DigitPrefix(s: string): (r: string)
    ensures AllDigits(r)
  {
    if s != "" && IsDigit(s[0]) then [s[0]] + DigitPrefix(s[1..]) else ""
  }

  /** `stream >> number`: zero without digits, the nearest bound on overflow. */
  function StreamNumber(s: string): int {
    var t := SkipSpace(s);
    var digits := DigitPrefix(if HasSign(t) then t[1..] else t);
    var v := Signed(t, DigitsValue(digits));
    if v > MAX_INT64 then MAX_INT64 else if v < MIN_INT64 then MIN_INT64 else v
  }

  /** `read_managed_file`: the creation time if the first line is the marker. */
  function ReadManaged(text: string): Option<int> {
    var lines := Lines(text);
    if lines == [] || lines[0] != MARKER then None
    else if |lines| > 1 && CREATED <= lines[1] then Some(StreamNumber(lines[1][|CREATED|..]))
    else Some(0)
  }

  function Managed(n: Node): Option<int> {
    if n.Regular? then ReadManaged(n.text) else None
  }

  function ThreeLines(a: string, b: string, d: string): string {
    a + "\n" + (b + "\n" + (d + "\n"))
  }

  function Settings(c: Config): string {
    ThreeLines("nameserver " + c.nameserver, "port " + Digits(c.port), "search_order " + Digits(c.searchOrder))
  }

  function FileText(c: Config, createdAt: nat): string {
    MARKER + "\n" + (CREATED + Digits(createdAt) + "\n" + Settings(c))
  }

  lemma {:induction false} DigitPrefixWhole(s: string)
    requires AllDigits(s)
    ensures DigitPrefix(s) == s
  {
    if s != "" {
      assert s[0] in s;
      DigitPrefixWhole(s[1..]);
    }
  }

  lemma StreamRoundTrip(n: nat)
    requires n <= MAX_INT64
    ensures StreamNumber(Digits(n)) == n
  {
    var s := Digits(n);
    assert s[0] in s;
    DigitPrefixWhole(s);
    DigitsValueInverse(n);
  }

  /** A marker line followed by a creation line makes a managed file. */
  lemma ManagedText(createdAt: nat, rest: string)
    requires createdAt <= MAX_INT64
    ensures Managed(Regular(MARKER + "\n" + (CREATED + Digits(createdAt) + "\n" + rest))) == Some(createdAt)
  {
    var second := CREATED + Digits(createdAt);
    LinesCons(MARKER, second + "\n" + rest);
    LinesCons(second, rest);
    assert second[|CREATED|..] == Digits(createdAt);
    StreamRoundTrip(createdAt);
  }

  /** A file the program writes is managed, and its creation time reads back. */
  lemma ManagedRoundTrip(c: Config, createdAt: nat)
    requires createdAt <= MAX_INT64
    ensures Managed(Regular(FileText(c, createdAt))) == Some(createdAt)
  {
    ManagedText(createdAt, Settings(c));
  }

  /** The file an add writes, line by line. */
  lemma {:induction false} WrittenLines(c: Config, createdAt: nat)
    requires '\n' !in c.nameserver
    ensures Lines(FileText(c, createdAt)) ==
      ["# managed by ip-router", "# created_at=" + Digits(createdAt), "nameserver " + c.nameserver,
       "port " + Digits(c.port), "search_order " + Digits(c.searchOrder)]
  {
    SettingsLines(c);
    LinesCons(CREATED + Digits(createdAt), Settings(c));
    LinesCons(MARKER, CREATED + Digits(createdAt) + "\n" + Settings(c));
  }

  lemma {:induction false} SettingsLines(c: Config)
    requires '\n' !in c.nameserver
    ensures Lines(Settings(c)) ==
      ["nameserver " + c.nameserver, "port " + Digits(c.port), "search_order " + Digits(c.searchOrder)]
  {
    PortLines(c.port, c.searchOrder);
    LinesOfThree("nameserver " + c.nameserver, "port " + Digits(c.port), "search_order " + Digits(c.searchOrder));
  }

  lemma PortLines(port: nat, searchOrder: nat)
    ensures '\n' !in "port " + Digits(port) && '\n' !in "search_order " + Digits(searchOrder)
  {
  }

  lemma {:induction false} LinesOfThree(a: string, b: string, d: string)
    requires '\n' !in a && '\n' !in b && '\n' !in d
    ensures Lines(ThreeLines(a, b, d)) == [a, b, d]
  {
    LinesOfLast("");
    assert d + "\n" == d + "\n" + "";
    LinesCons(d, "");
    LinesCons(b, d + "\n");
    LinesCons(a, b + "\n" + (d + "\n"));
  }

  /** Which files are the program's, and with which creation time: a regular file whose first line is
      the marker; the number its second line gives, or zero. */
  lemma {:induction false} ManagedExactly(n: Node)
    ensures Managed(n).Some? <==> n.Regular? && Lines(n.text) != [] && Lines(n.text)[0] == "# managed by ip-router"
    ensures Managed(n).Some? ==>
      (forall number :: |Lines(n.text)| > 1 && Lines(n.text)[1] == "# created_at=" + number ==>
         Managed(n).value == StreamNumber(number))
      && (|Lines(n.text)| == 1 || !("# created_at=" <= Lines(n.text)[1]) ==> Managed(n).value == 0)
  {
    if Managed(n).Some? {
      forall number | |Lines(n.text)| > 1 && Lines(n.text)[1] == "# created_at=" + number
        ensures Managed(n).value == StreamNumber(number) {
        assert Lines(n.text)[1][|CREATED|..] == number;
      }
    }
  }

  /** The number at the beginning of a text: white space, at most one sign, digits, then anything that
      does not go on with a digit. Beyond 64 bits it is the nearest bound. */
  lemma {:induction false} StreamExactly(blanks: string, sign: string, digits: string, rest: string)
    requires (forall c :: c in blanks ==> IsSpace(c)) && (sign == "" || sign == "+" || sign == "-")
    requires digits != "" && AllDigits(digits) && (rest == "" || !IsDigit(rest[0]))
    ensures var v := Signed(sign, DigitsValue(digits));
      StreamNumber(blanks + sign + digits + rest) ==
        if v > 0x7fff_ffff_ffff_ffff then 0x7fff_ffff_ffff_ffff
        else if v < -0x8000_0000_0000_0000 then -0x8000_0000_0000_0000 else v
  {
    var t := sign + digits + rest;
    assert digits[0] in digits;
    assert blanks + sign + digits + rest == blanks + t;
    SkipBlanks(blanks, t);
    assert (if HasSign(t) then t[1..] else t) == digits + rest;
    PrefixOf(digits, rest);
    assert Signed(t, DigitsValue(digits)) == Signed(sign, DigitsValue(digits));
  }

  lemma {:induction false} PrefixOf(digits: string, rest: string)
    requires AllDigits(digits) && (rest == "" || !IsDigit(rest[0]))
    ensures DigitPrefix(digits + rest) == digits
  {
    if digits == "" {
      assert digits + rest == rest;
    } else {
      assert digits[0] in digits && forall c :: c in digits[1..] ==> c in digits;
      assert (digits + rest)[1..] == digits[1..] + rest;
      PrefixOf(digits[1..], rest);
    }
  }

  // ----- names -----

  /** A normalized domain name: what a resolver file may be called. */
  ghost predicate IsName(n: string) {
    IsDomain(n) && Normal(n) == n
  }

  function TempName(c: Config, domain: string): string {
    ".ip-router-" + Digits(c.pid) + "-" + domain + ".tmp"
  }

  lemma NormalIsName(value: string)
    requires IsDomain(value)
    ensures IsName(Normal(value))
  {
    NormalizationIdempotent(value);
  }

  /** A name that begins with a dot, as every temporary name does, is no domain name. */
  lemma {:induction false} DottedIsNoName(n: string)
    requires n != "" && n[0] == '.'
    ensures !IsDomain(n)
  {
    var name := StripDots(n);
    if name != "" {
      assert name[0] == '.';
      assert !ScanTo(name, 1).ok;
      Rejected(name, 1);
    }
    IsDomainScan(n);
  }

  // ----- operations -----

  datatype Op =
    | Add(value: string, now: nat, dirOk: bool, lstatOk: bool, readOk: bool,
          openOk: bool, writeOk: bool, partial: string, renameOk: bool, unlinkOk: bool)
    | Remove(value: string, lstatOk: bool, readOk: bool, unlinkOk: bool)

  /** The names listed, each with its creation time. */
  ghost function Listed(s: State): map<string, int> {
    map n | n in s.files && IsName(n) && Managed(s.files[n]).Some? :: Managed(s.files[n]).value
  }

  /** The creation time an add writes. */
  function CreatedAt(s: State, domain: string, now: nat): nat {
    if domain in s.files && Managed(s.files[domain]).Some? && Managed(s.files[domain]).value > 0
    then Managed(s.files[domain]).value
    else now
  }

  ghost function AddStep(c: Config, s: State, o: Op): (State, bool)
    requires o.Add?
  {
    if !IsDomain(o.value) || !o.dirOk || s.kind == NotDirectory then (s, false)
    else
      var domain := Normal(o.value);
      var temporary := TempName(c, domain);
      var d := s.(kind := Directory);
      if !o.lstatOk || (domain in s.files && (!o.readOk || Managed(s.files[domain]).None?)) || !o.openOk
      then (d, false)
      else if !o.writeOk || !o.renameOk then
        (d.(files := if o.unlinkOk then s.files - {temporary}
                     else s.files[temporary := Regular(if o.writeOk
                       then FileText(c, CreatedAt(s, domain, o.now)) else o.partial)]), false)
      else
        (d.(files := (s.files - {temporary})[domain := Regular(FileText(c, CreatedAt(s, domain, o.now)))]), true)
  }

  ghost function RemoveStep(s: State, o: Op): (State, bool)
    requires o.Remove?
  {
    var domain := Normal(o.value);
    if !IsDomain(o.value) || !o.lstatOk || domain !in s.files
       || !o.readOk || Managed(s.files[domain]).None? || !o.unlinkOk
    then (s, false)
    else (s.(files := s.files - {domain}), true)
  }

  ghost function Step(c: Config, s: State, o: Op): (State, bool) {
    if o.Add? then AddStep(c, s, o) else RemoveStep(s, o)
  }

  predicate Legal(o: Op) {
    o.Add? ==> 0 < o.now <= MAX_INT64
  }

  // ----- what one operation does to the listing -----

  lemma {:induction false} TempIsNotListed(c: Config, value: string)
    requires IsDomain(value)
    ensures !IsName(TempName(c, Normal(value))) && TempName(c, Normal(value)) != Normal(value)
  {
    DottedIsNoName(TempName(c, Normal(value)));
    NormalIsName(value);
  }

  /** Changing a file of another name than `n`s leaves the listing as it is. */
  lemma {:induction false} UnlistedChange(s: State, t: State, n: string)
    requires !IsName(n)
    requires forall m :: m != n ==> (m in t.files <==> m in s.files) && (m in s.files ==> t.files[m] == s.files[m])
    ensures Listed(t) == Listed(s)
  {
  }

  lemma {:induction false} CreatedAtFits(s: State, domain: string, now: nat)
    requires now <= MAX_INT64
    ensures CreatedAt(s, domain, now) <= MAX_INT64
  {
  }

  /** Replacing a listed name's file, with an unlisted one gone, replaces its line. */
  lemma {:induction false} ReplacedListed(s: State, t: State, domain: string, temporary: string, node: Node)
    requires IsName(domain) && !IsName(temporary) && Managed(node).Some?
    requires t.files == (s.files - {temporary})[domain := node]
    ensures Listed(t) == Listed(s)[domain := Managed(node).value]
  {
  }

  lemma {:induction false} AddListed(c: Config, s: State, o: Op)
    requires o.Add? && Legal(o)
    ensures var (t, ok) := AddStep(c, s, o); var domain := Normal(o.value); var listed := Listed(s);
      Listed(t) ==
        if !ok then listed
        else listed[domain := if domain in listed && listed[domain] > 0 then listed[domain] else o.now]
  {
    var (t, ok) := AddStep(c, s, o);
    if IsDomain(o.value) {
      var domain := Normal(o.value);
      TempIsNotListed(c, o.value);
      if !ok {
        UnlistedChange(s, t, TempName(c, domain));
      } else {
        NormalIsName(o.value);
        CreatedAtFits(s, domain, o.now);
        var node := Regular(FileText(c, CreatedAt(s, domain, o.now)));
        ManagedRoundTrip(c, CreatedAt(s, domain, o.now));
        ReplacedListed(s, t, domain, TempName(c, domain), node);
      }
    }
  }

  lemma {:induction false} RemoveListed(s: State, o: Op)
    requires o.Remove?
    ensures var (t, ok) := RemoveStep(s, o); var domain := Normal(o.value);
      && Listed(t) == (if ok then Listed(s) - {domain} else Listed(s))
      && (ok ==> domain in Listed(s))
  {
    var (t, ok) := RemoveStep(s, o);
    if ok {
      NormalIsName(o.value);
      DroppedListed(s, t, Normal(o.value));
    }
  }

  lemma {:induction false} DroppedListed(s: State, t: State, domain: string)
    requires t.files == s.files - {domain}
    ensures Listed(t) == Listed(s) - {domain}
  {
  }

  /** A successful add lists its domain, with the creation time it had, if any, and changes no
      other line; a successful remove drops its domain only; a failure changes nothing. */
  lemma {:induction false} StepListed(c: Config, s: State, o: Op)
    requires Legal(o)
    ensures var (t, ok) := Step(c, s, o); var domain := Normal(o.value); var listed := Listed(s);
      && Listed(t) == (
        if !ok then listed
        else if o.Remove? then listed - {domain}
        else listed[domain := if domain in listed && listed[domain] > 0 then listed[domain] else o.now])
      && (ok && o.Remove? ==> domain in listed)
  {
    if o.Add? {
      AddListed(c, s, o);
    } else {
      RemoveListed(s, o);
    }
  }

  /** Every verdict, by what the call meets. */
  lemma {:induction false} AddAnswers(c: Config, s: State, o: Op)
    requires o.Add?
    ensures var domain := Normal(o.value);
      Step(c, s, o).1 <==>
        && IsDomain(o.value) && s.kind != NotDirectory && o.dirOk && o.lstatOk
        && (domain in s.files ==> o.readOk && Managed(s.files[domain]).Some?)
        && o.openOk && o.writeOk && o.renameOk
  {
  }

  lemma {:induction false} RemoveAnswers(c: Config, s: State, o: Op)
    requires o.Remove?
    ensures var domain := Normal(o.value);
      Step(c, s, o).1 <==>
        && IsDomain(o.value) && o.lstatOk && domain in s.files && o.readOk
        && Managed(s.files[domain]).Some? && o.unlinkOk
  {
  }

  predicate SameFile(s: State, t: State, n: string) {
    (n in t.files <==> n in s.files) && (n in s.files ==> t.files[n] == s.files[n])
  }

  /** The files a call can touch are its domain's and its own temporary one; what a successful add
      leaves in the first, and that neither it nor a successful remove leaves the second or the first
      behind. */
  lemma {:induction false} StepTouches(c: Config, s: State, o: Op)
    ensures var t := Step(c, s, o).0; var domain := Normal(o.value);
      var temporary := ".ip-router-" + Digits(c.pid) + "-" + domain + ".tmp";
      forall n :: n != domain && n != temporary ==> SameFile(s, t, n)
    ensures !Step(c, s, o).1 ==> SameFile(s, Step(c, s, o).0, Normal(o.value))
    ensures Step(c, s, o).1 && o.Add? ==>
      var t := Step(c, s, o).0; var domain := Normal(o.value);
      var temporary := ".ip-router-" + Digits(c.pid) + "-" + domain + ".tmp";
      && domain in t.files && t.files[domain] == Regular(FileText(c, CreatedAt(s, domain, o.now)))
      && temporary !in t.files
    ensures Step(c, s, o).1 && o.Remove? ==> Normal(o.value) !in Step(c, s, o).0.files
  {
    if IsDomain(o.value) {
      TempIsNotListed(c, o.value);
    }
  }

  /** What a call leaves besides its domain's file: the directory, made if need be by an add that got as
      far; and its temporary file, which goes when the write or the rename fails, unless the unlink fails
      too, and is as before where the call did not open it. */
  lemma {:induction false} StepLeaves(c: Config, s: State, o: Op)
    ensures var (t, ok) := Step(c, s, o); var domain := Normal(o.value);
      var temporary := ".ip-router-" + Digits(c.pid) + "-" + domain + ".tmp";
      var directory := o.Add? && IsDomain(o.value) && o.dirOk && s.kind != NotDirectory;
      var reached := directory && o.lstatOk && o.openOk
        && (domain in s.files ==> o.readOk && Managed(s.files[domain]).Some?);
      && t.kind == (if directory then Directory else s.kind)
      && (!reached ==> SameFile(s, t, temporary))
      && (reached && !ok ==> (temporary in t.files <==> !o.unlinkOk))
      && (reached && !ok && !o.unlinkOk ==>
            t.files[temporary] ==
              Regular(if o.writeOk then FileText(c, CreatedAt(s, domain, o.now)) else o.partial))
  {
    if IsDomain(o.value) {
      TempIsNotListed(c, o.value);
    }
  }

  // ----- runs -----

  /** One call, under the process id and settings of its own time. */
  datatype Call = Call(config: Config, op: Op)

  ghost function After(s: State, c: Call): State {
    Step(c.config, s, c.op).0
  }

  ghost function Run(s: State, calls: seq<Call>): State
    decreases |calls|
  {
    if calls == [] then s else Run(After(s, calls[0]), calls[1..])
  }

  predicate AllLegal(calls: seq<Call>) {
    forall c :: c in calls ==> Legal(c.op)
  }

  /** A file that is not the program's: no marker, and not a name temporary files may have. */
  predicate Foreign(s: State, n: string) {
    n in s.files && Managed(s.files[n]).None? && (n == "" || n[0] != '.')
  }

  /** No run of adds and removes, whatever fails and whatever restarts or settings change in
      between, changes or deletes a foreign file. */
  lemma {:induction false} ForeignUntouched(s: State, calls: seq<Call>, n: string)
    requires Foreign(s, n)
    ensures n in Run(s, calls).files && Run(s, calls).files[n] == s.files[n]
    decreases |calls|
  {
    if calls != [] {
      var t := After(s, calls[0]);
      assert TempName(calls[0].config, Normal(calls[0].op.value))[0] == '.';
      assert Foreign(t, n) && t.files[n] == s.files[n];
      ForeignUntouched(t, calls[1..], n);
    }
  }

  ghost predicate NeverRemoved(s: State, calls: seq<Call>, domain: string)
    decreases |calls|
  {
    calls != [] ==>
      && !(calls[0].op.Remove? && Normal(calls[0].op.value) == domain && Step(calls[0].config, s, calls[0].op).1)
      && NeverRemoved(After(s, calls[0]), calls[1..], domain)
  }

  /** From its first add on, and until it is removed, a domain stays listed with the time of that
      add, whatever else is added, removed, restarted or fails. */
  lemma {:induction false} CreationTimeFixed(s: State, calls: seq<Call>, domain: string)
    requires AllLegal(calls) && NeverRemoved(s, calls, domain)
    requires domain in Listed(s) && Listed(s)[domain] > 0
    ensures domain in Listed(Run(s, calls)) && Listed(Run(s, calls))[domain] == Listed(s)[domain]
    decreases |calls|
  {
    if calls != [] {
      assert calls[0] in calls;
      StepListed(calls[0].config, s, calls[0].op);
      CreationTimeFixed(After(s, calls[0]), calls[1..], domain);
    }
  }

  lemma {:induction false} FirstAddStamps(c: Config, s: State, add: Op, calls: seq<Call>)
    requires add.Add? && Legal(add) && AllLegal(calls) && Step(c, s, add).1 && Normal(add.value) !in Listed(s)
    requires NeverRemoved(Step(c, s, add).0, calls, Normal(add.value))
    ensures var t := Run(Step(c, s, add).0, calls);
      Normal(add.value) in Listed(t) && Listed(t)[Normal(add.value)] == add.now
  {
    StepListed(c, s, add);
    CreationTimeFixed(Step(c, s, add).0, calls, Normal(add.value));
  }

  // ----- the listing, sorted -----

  datatype DomainEntry = DomainEntry(domain: string, createdAt: int)

  predicate AscendingEntries(es: seq<DomainEntry>) {
    forall a, b :: 0 <= a < b < |es| ==> Less(es[a].domain, es[b].domain)
  }

  /** Where `std::sort` puts one more entry. */
  function Insert(es: seq<DomainEntry>, e: DomainEntry): (r: seq<DomainEntry>)
    ensures forall x :: x in r <==> x in es || x == e
  {
    if es == [] then [e]
    else if Less(e.domain, es[0].domain) then [e] + es
    else
      var r := [es[0]] + Insert(es[1..], e);
      assert es == [es[0]] + es[1..];
      r
  }

  function SortEntries(es: seq<DomainEntry>): (r: seq<DomainEntry>)
    ensures forall x :: x in r <==> x in es
  {
    if es == [] then []
    else
      assert es == [es[0]] + es[1..];
      Insert(SortEntries(es[1..]), es[0])
  }

  lemma {:induction false} InsertAscending(es: seq<DomainEntry>, e: DomainEntry)
    requires AscendingEntries(es) && forall x :: x in es ==> x.domain != e.domain
    ensures AscendingEntries(Insert(es, e))
  {
    if es != [] {
      var first := es[0];
      assert first in es;
      LessTotal(e.domain, first.domain);
      if Less(e.domain, first.domain) {
        forall b | 0 <= b < |es| ensures Less(e.domain, es[b].domain) {
          if b > 0 {
            LessTransitive(e.domain, first.domain, es[b].domain);
          }
        }
      } else {
        assert forall x :: x in es[1..] ==> x in es;
        InsertAscending(es[1..], e);
        var rest := Insert(es[1..], e);
        forall b | 0 <= b < |rest| ensures Less(first.domain, rest[b].domain) {
          assert rest[b] in rest;
          if rest[b] != e {
            var m :| 0 <= m < |es| - 1 && es[1..][m] == rest[b];
            assert es[m + 1] == rest[b];
          }
        }
      }
    }
  }

  lemma {:induction false} SortAscending(es: seq<DomainEntry>)
    requires forall a, b :: 0 <= a < b < |es| ==> es[a].domain != es[b].domain
    ensures AscendingEntries(SortEntries(es))
  {
    if es != [] {
      SortAscending(es[1..]);
      forall x | x in SortEntries(es[1..]) ensures x.domain != es[0].domain {
        var m :| 0 <= m < |es| - 1 && es[1..][m] == x;
        assert es[m + 1] == x;
      }
      InsertAscending(SortEntries(es[1..]), es[0]);
    }
  }

  // ----- the manager -----

  class DomainManager {
    const config: Config
    var kind: Kind
    var files: map<string, Node>

    /** Only a directory has entries. */
    ghost predicate Valid()
      reads this
    {
      kind != Directory ==> files == map[]
    }

    constructor (config: Config, kind: Kind, files: map<string, Node>)
      requires kind != Directory ==> files == map[]
      ensures Valid() && this.config == config && Current() == State(kind, files)
    {
      this.config, this.kind, this.files := config, kind, files;
    }

    ghost function Current(): State
      reads this
    {
      State(kind, files)
    }

    method EnsureDirectory(dirOk: bool) returns (ok: bool)
      modifies this`kind
      ensures ok <==> dirOk && old(kind) != NotDirectory
      ensures kind == if ok then Directory else old(kind)
    {
      ok := dirOk && kind != NotDirectory;
      if ok {
        kind := Directory;
      }
    }

    method Add(o: Op) returns (ok: bool)
      requires Valid() && o.Add?
      modifies this
      ensures Valid() && (Current(), ok) == Step(config, old(Current()), o)
    {
      var error, domain := ValidDomain(o.value);
      if error.Some? {
        return false;
      }
      var usable := EnsureDirectory(o.dirOk);
      if !usable {
        return false;
      }
      var createdAt := o.now;
      if !o.lstatOk {
        return false;
      }
      if domain in files {
        var existing := Managed(files[domain]);
        if !o.readOk || existing.None? {
          return false;
        }
        if existing.value > 0 {
          createdAt := existing.value;
        }
      }
      ok := WriteFile(domain, createdAt, o);
    }

    /** The temporary file, its content and the rename; on failure the temporary file is unlinked. */
    method WriteFile(domain: string, createdAt: nat, o: Op) returns (ok: bool)
      requires o.Add? && TempName(config, domain) != domain
      modifies this`files
      ensures ok <==> o.openOk && o.writeOk && o.renameOk
      ensures var temporary := TempName(config, domain);
        files ==
          if !o.openOk then old(files)
          else if ok then (old(files) - {temporary})[domain := Regular(FileText(config, createdAt))]
          else if o.unlinkOk then old(files) - {temporary}
          else old(files)[temporary := Regular(if o.writeOk then FileText(config, createdAt) else o.partial)]
    {
      var temporary := TempName(config, domain);
      if !o.openOk {
        return false;
      }
      files := files[temporary := Regular(if o.writeOk then FileText(config, createdAt) else o.partial)];
      if !o.writeOk || !o.renameOk {
        if o.unlinkOk {
          files := files - {temporary};
        }
        return false;
      }
      files := (files - {temporary})[domain := files[temporary]];
      return true;
    }

    method Remove(o: Op) returns (ok: bool)
      requires Valid() && o.Remove?
      modifies this
      ensures Valid() && (Current(), ok) == Step(config, old(Current()), o)
    {
      var error, domain := ValidDomain(o.value);
      if error.Some? {
        return false;
      }
      if !o.lstatOk || domain !in files {
        return false;
      }
      if !o.readOk || Managed(files[domain]).None? {
        return false;
      }
      if !o.unlinkOk {
        return false;
      }
      files := files - {domain};
      return true;
    }

    /** The listing is exactly the marked files with domain names, each once, sorted; the order in
        which the directory is read does not matter. */
    method List(openOk: bool, unreadable: set<string>) returns (ok: bool, domains: seq<DomainEntry>)
      requires Valid()
      ensures ok <==> kind == Missing || (kind == Directory && openOk)
      ensures ok ==> AscendingEntries(domains)
      ensures ok ==> forall e :: e in domains <==>
        e.domain in Listed(Current()) && e.domain !in unreadable && Listed(Current())[e.domain] == e.createdAt
    {
      domains := [];
      if kind == Missing {
        return true, domains;
      }
      if kind == NotDirectory || !openOk {
        return false, domains;
      }
      var items := files.Keys;
      while items != {}
        invariant items <= files.Keys
        invariant forall e :: e in domains <==>
          e.domain in Listed(Current()) && e.domain !in unreadable && e.domain !in items
          && Listed(Current())[e.domain] == e.createdAt
        invariant forall a, b :: 0 <= a < b < |domains| ==> domains[a].domain != domains[b].domain
        decreases |items|
      {
        var name :| name in items;
        items := items - {name};
        var entry := ListItem(name, name in unreadable);
        if entry.Some? {
          assert forall e :: e in domains ==> e.domain != name;
          domains := domains + [entry.value];
        }
      }
      SortAscending(domains);
      return true, SortEntries(domains);
    }

    method ListItem(name: string, unreadable: bool) returns (entry: Option<DomainEntry>)
      requires name in files
      ensures entry == if name in Listed(Current()) && !unreadable
        then Some(DomainEntry(name, Listed(Current())[name])) else None
    {
      if name != "" && name[0] == '.' {
        DottedIsNoName(name);
        return None;
      }
      var error, normalized := ValidDomain(name);
      if error.Some? || normalized != name {
        return None;
      }
      var createdAt := Managed(files[name]);
      if unreadable || createdAt.None? {
        return None;
      }
      return Some(DomainEntry(name, createdAt.value));
    }
  }
}
