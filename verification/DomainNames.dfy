/** The two hand-written domain validators and the names they stand for (RFC 1035, sections 2.3.1
    and 2.3.4; RFC 1123, section 2.1). */
module DomainNames {
  import opened Text

  const MAX_NAME := 253
  const MAX_LABEL := 63

  // ----- what a domain name is -----

  predicate LabelChar(c: char) { IsAlnum(c) || c == '-' }

  /** 1 to 63 letters, digits or inner hyphens. */
  ghost predicate IsLabel(l: string) {
    && 1 <= |l| <= MAX_LABEL
    && (forall c :: c in l ==> LabelChar(c))
    && l[0] != '-' && l[|l| - 1] != '-'
  }

  /** The name without its trailing dots. */
  function StripDots(s: string): (r: string)
    ensures r <= s && (r == "" || r[|r| - 1] != '.')
    ensures forall i :: |r| <= i < |s| ==> s[i] == '.'
  {
    if s != "" && s[|s| - 1] == '.' then StripDots(s[..|s| - 1]) else s
  }

  ghost predicate AllLabels(parts: seq<string>) {
    forall l :: l in parts ==> IsLabel(l)
  }

  ghost predicate IsDomain(s: string) {
    var name := StripDots(s);
    1 <= |name| <= MAX_NAME && AllLabels(Split(name, '.'))
  }

  function Normal(s: string): string {
    Lower(StripDots(s))
  }

  // ----- the automaton -----

  /** The state of the scan: whether the name read so far can still be one, and the length of the
      label it is in. */
  datatype Scan = Scan(ok: bool, labelLength: nat)

  function ScanChar(x: Scan, previous: char, c: char): Scan {
    if !x.ok then x
    else if c == '.' then Scan(1 <= x.labelLength <= MAX_LABEL && previous != '-', 0)
    else Scan(LabelChar(c) && !(x.labelLength == 0 && c == '-'), x.labelLength + 1)
  }

  /** The label the scan is in after `n` characters starts at `LabelStart`. */
  function LabelStart(s: string, n: nat): (b: nat)
    requires n <= |s|
    ensures b <= n
  {
    if n == 0 then 0 else if s[n - 1] == '.' then n else LabelStart(s, n - 1)
  }

  lemma {:induction false} LabelStartExact(s: string, n: nat)
    requires n <= |s|
    ensures var b := LabelStart(s, n);
      (b == 0 || s[b - 1] == '.') && forall i :: b <= i < n ==> s[i] != '.'
  {
    if n > 0 && s[n - 1] != '.' {
      LabelStartExact(s, n - 1);
    }
  }

  /** Splitting at the dots is ending a label at each dot. */
  lemma {:induction false} SplitEndsAt(s: string, from: nat, n: nat)
    requires from <= n < |s| && s[n] == '.' && forall i :: from <= i < n ==> s[i] != '.'
    ensures SplitFrom(s, '.', from) == [s[from..n]] + SplitFrom(s, '.', n + 1)
  {
    FindExact(s, '.', from, n);
  }

  /** The labels completed before `n`: those of `s[..n]` but the one the scan is in. */
  ghost predicate LabelsBefore(s: string, n: nat)
    requires n <= |s|
    decreases n
  {
    var b := LabelStart(s, n);
    b == 0 || (b <= |s| && LabelsBefore(s, b - 1) && IsLabel(s[LabelStart(s, b - 1)..b - 1]))
  }

  /** Every label of the name counts exactly when those before the last one and the last one do. */
  lemma {:induction false} LabelsOfPrefix(s: string, n: nat)
    requires n <= |s|
    ensures AllLabels(Split(s, '.')) <==>
      LabelsBefore(s, n) && AllLabels(SplitFrom(s, '.', LabelStart(s, n)))
    decreases n
  {
    var b := LabelStart(s, n);
    LabelStartExact(s, n);
    if b > 0 {
      var a := LabelStart(s, b - 1);
      LabelStartExact(s, b - 1);
      LabelsOfPrefix(s, b - 1);
      SplitEndsAt(s, a, b - 1);
      FirstLabel(s[a..b - 1], SplitFrom(s, '.', b));
    }
  }

  lemma {:induction false} FirstLabel(l: string, parts: seq<string>)
    ensures AllLabels([l] + parts) <==> IsLabel(l) && AllLabels(parts)
  {
    assert l in [l] + parts;
    assert forall p :: p in parts ==> p in [l] + parts;
  }

  // ----- the automaton accepts exactly the names -----

  function ScanTo(s: string, n: nat): Scan
    requires n <= |s|
  {
    if n == 0 then Scan(true, 0)
    else ScanChar(ScanTo(s, n - 1), if n >= 2 then s[n - 2] else '.', s[n - 1])
  }

  /** How the scan ends. */
  predicate Accepts(s: string) {
    var x := ScanTo(s, |s|);
    x.ok && 1 <= x.labelLength <= MAX_LABEL && s[|s| - 1] != '-'
  }

  /** The part of the current label read so far may start a label. */
  ghost predicate LabelBegun(s: string, n: nat)
    requires n <= |s|
  {
    var b := LabelStart(s, n);
    (forall i :: b <= i < n ==> LabelChar(s[i])) && (b < n ==> s[b] != '-')
  }

  lemma {:induction false} LabelEnds(s: string, b: nat, n: nat)
    requires b <= n <= |s|
    ensures IsLabel(s[b..n]) <==>
      && 1 <= n - b <= MAX_LABEL && s[b] != '-' && s[n - 1] != '-' && forall i :: b <= i < n ==> LabelChar(s[i])
  {
    var l := s[b..n];
    assert forall k :: 0 <= k < |l| ==> l[k] == s[b + k];
    if IsLabel(l) {
      forall i | b <= i < n ensures LabelChar(s[i]) {
        assert l[i - b] == s[i] && l[i - b] in l;
      }
    }
  }

  /** The scan is on after `n` characters exactly when all completed labels are labels and the current
      one may be, and it then knows how long that one is. */
  ghost predicate ScanFits(s: string, n: nat)
    requires n <= |s|
  {
    && (ScanTo(s, n).ok <==> LabelsBefore(s, n) && LabelBegun(s, n))
    && (ScanTo(s, n).ok ==> ScanTo(s, n).labelLength == n - LabelStart(s, n))
  }

  lemma {:induction false} ScanExact(s: string, n: nat)
    requires n <= |s|
    ensures ScanFits(s, n)
  {
    if n == 0 {
      ScanStarts(s);
    } else {
      ScanExact(s, n - 1);
      if s[n - 1] == '.' {
        ScanDot(s, n - 1);
      } else {
        ScanInside(s, n - 1);
      }
    }
  }

  lemma ScanStarts(s: string)
    ensures ScanFits(s, 0)
  {
  }

  lemma {:induction false} ScanDot(s: string, n: nat)
    requires n < |s| && s[n] == '.' && ScanFits(s, n)
    ensures ScanFits(s, n + 1)
  {
    var b := LabelStart(s, n);
    assert LabelStart(s, n + 1) == n + 1;
    assert LabelsBefore(s, n + 1) <==> LabelsBefore(s, n) && IsLabel(s[b..n]);
    LabelEnds(s, b, n);
  }

  lemma {:induction false} ScanInside(s: string, n: nat)
    requires n < |s| && s[n] != '.' && ScanFits(s, n)
    ensures ScanFits(s, n + 1)
  {
    assert LabelStart(s, n + 1) == LabelStart(s, n);
    assert LabelsBefore(s, n + 1) <==> LabelsBefore(s, n);
  }

  /** The one-pass automaton accepts exactly the names whose every label is a label. */
  lemma {:induction false} AcceptsExactly(s: string)
    requires s != ""
    ensures Accepts(s) <==> AllLabels(Split(s, '.'))
  {
    var b := LabelStart(s, |s|);
    ScanExact(s, |s|);
    LabelsOfPrefix(s, |s|);
    LabelStartExact(s, |s|);
    LabelEnds(s, b, |s|);
    FindExact(s, '.', b, |s|);
    assert SplitFrom(s, '.', b) == [s[b..|s|]];
  }

  // ----- lower case -----

  lemma {:induction false} ScanLower(s: string, n: nat)
    requires n <= |s|
    ensures ScanTo(Lower(s), n) == ScanTo(s, n)
  {
    if n > 0 {
      ScanLower(s, n - 1);
    }
  }

  lemma {:induction false} StripLower(s: string)
    ensures StripDots(Lower(s)) == Lower(StripDots(s))
  {
    if s != "" && s[|s| - 1] == '.' {
      StripLower(s[..|s| - 1]);
      assert Lower(s)[..|s| - 1] == Lower(s[..|s| - 1]);
    }
  }

  lemma AcceptsLower(s: string)
    ensures Accepts(Lower(s)) <==> Accepts(s)
  {
    ScanLower(s, |s|);
  }

  lemma {:induction false} IsDomainScan(s: string)
    ensures IsDomain(s) <==> 1 <= |StripDots(s)| <= MAX_NAME && Accepts(StripDots(s))
  {
    if StripDots(s) != "" {
      AcceptsExactly(StripDots(s));
    }
  }

  /** A normalized name is a name again, and normalizing it changes nothing. */
  lemma {:induction false} NormalizationIdempotent(s: string)
    ensures Normal(Normal(s)) == Normal(s)
    ensures IsDomain(Normal(s)) <==> IsDomain(s)
  {
    var name := StripDots(s);
    StripLower(name);
    assert StripDots(name) == name;
    assert Lower(Lower(name)) == Lower(name);
    IsDomainScan(s);
    IsDomainScan(Normal(s));
    AcceptsLower(name);
  }

  // ----- what the names are, put together from their labels -----

  /** 1 to 63 letters, digits or hyphens, by their ASCII codes, the first and last no hyphen. */
  ghost predicate IsPlainLabel(l: string) {
    && 1 <= |l| <= 63 && l[0] as int != 45 && l[|l| - 1] as int != 45
    && forall c :: c in l ==> 48 <= c as int <= 57 || 65 <= c as int <= 90 || 97 <= c as int <= 122 || c as int == 45
  }

  /** The text is these labels, joined by dots, and then dots only; without those at most 253 long. */
  ghost predicate IsNameOf(s: string, labels: seq<string>, dots: string) {
    && labels != [] && (forall l :: l in labels ==> IsPlainLabel(l)) && (forall c :: c in dots ==> c == '.')
    && |Join(labels, '.')| <= 253 && s == Join(labels, '.') + dots
  }

  lemma {:induction false} LabelExactly(l: string)
    ensures IsLabel(l) <==> IsPlainLabel(l)
  {
    forall c | c in l
      ensures LabelChar(c) <==>
        48 <= c as int <= 57 || 65 <= c as int <= 90 || 97 <= c as int <= 122 || c as int == 45 {
      ClassesExactly(c);
    }
  }

  lemma {:induction false} StripAppended(name: string, dots: string)
    requires (forall c :: c in dots ==> c == '.') && (name == "" || name[|name| - 1] != '.')
    ensures StripDots(name + dots) == name
  {
    if dots == "" {
      assert name + dots == name;
    } else {
      var k := |dots| - 1;
      assert dots[k] in dots && forall c :: c in dots[..k] ==> c in dots;
      assert (name + dots)[..|name| + k] == name + dots[..k];
      StripAppended(name, dots[..k]);
    }
  }

  lemma {:induction false} JoinEnds(labels: seq<string>)
    requires labels != [] && forall l :: l in labels ==> IsPlainLabel(l)
    ensures var name := Join(labels, '.'); name != "" && name[|name| - 1] != '.'
  {
    assert labels[0] in labels && labels[0][|labels[0]| - 1] in labels[0];
    if |labels| > 1 {
      JoinEnds(labels[1..]);
    }
  }

  /** A domain name is exactly a text that labels, dots between them and dots behind them make up; its
      normal form is the lower-cased text without the dots behind. */
  lemma {:induction false} DomainExactly(s: string)
    ensures IsDomain(s) <==> exists labels, dots :: IsNameOf(s, labels, dots)
    ensures forall labels, dots :: IsNameOf(s, labels, dots) ==> Normal(s) == Lower(Join(labels, '.'))
  {
    if IsDomain(s) {
      NameHasLabels(s);
    }
    forall labels, dots | IsNameOf(s, labels, dots)
      ensures IsDomain(s) && Normal(s) == Lower(Join(labels, '.')) {
      LabelsMakeName(s, labels, dots);
    }
  }

  lemma {:induction false} NameHasLabels(s: string)
    requires IsDomain(s)
    ensures exists labels, dots :: IsNameOf(s, labels, dots)
  {
    var name := StripDots(s);
    var labels, dots := Split(name, '.'), s[|name|..];
    JoinSplit(name, '.', 0);
    assert name[0..] == name && s == name + dots;
    forall l | l in labels ensures IsPlainLabel(l) {
      LabelExactly(l);
    }
    assert IsNameOf(s, labels, dots);
  }

  lemma {:induction false} LabelsMakeName(s: string, labels: seq<string>, dots: string)
    requires IsNameOf(s, labels, dots)
    ensures IsDomain(s) && StripDots(s) == Join(labels, '.')
  {
    JoinEnds(labels);
    StripAppended(Join(labels, '.'), dots);
    forall l | l in labels ensures IsLabel(l) && '.' !in l {
      LabelExactly(l);
    }
    SplitJoin(labels, '.');
  }

  // ----- domain_manager::valid_domain -----

  datatype DomainError = Required | BadLength | BadLabel | BadCharacter | LeadingHyphen

  method DropTrailingDots(value: string) returns (domain: string)
    ensures domain == StripDots(value)
  {
    domain := value;
    while domain != "" && domain[|domain| - 1] == '.'
      invariant StripDots(value) == StripDots(domain)
      decreases |domain|
    {
      domain := domain[..|domain| - 1];
    }
  }

  /** What is wrong with a character the scan fails at. */
  function ErrorOf(c: char): DomainError {
    if c == '.' then BadLabel else if c == '-' then LeadingHyphen else BadCharacter
  }

  lemma ErrorExactly(c: char)
    ensures ErrorOf(c) == if c as int == 46 then BadLabel else if c as int == 45 then LeadingHyphen else BadCharacter
  {
  }

  /** The scan is still on before position `i` and fails there, or at the end of the name, with this
      error. There is one such position, since a failed scan stays failed. */
  ghost predicate FailsAt(s: string, i: nat, e: DomainError) {
    && i <= |s| && ScanTo(s, i).ok
    && (i == |s| ==> !Accepts(s) && e == BadLabel)
    && (i < |s| ==> !ScanTo(s, i + 1).ok && e == ErrorOf(s[i]))
  }

  /** Accepts exactly the domain names, and normalizes them; otherwise the result is empty and the
      error is that of the first place where the name fails. */
  method ValidDomain(value: string) returns (error: Option<DomainError>, normalized: string)
    ensures error.None? <==> IsDomain(value)
    ensures normalized == if error.None? then Normal(value) else ""
    ensures error == Some(Required) <==> value == ""
    ensures error == Some(BadLength) <==> value != "" && !(1 <= |StripDots(value)| <= MAX_NAME)
    ensures error.Some? && error.value !in {Required, BadLength} ==>
      exists i :: FailsAt(StripDots(value), i, error.value)
  {
    normalized := "";
    IsDomainScan(value);
    if value == "" {
      return Some(Required), normalized;
    }
    var domain := DropTrailingDots(value);
    if domain == "" || |domain| > MAX_NAME {
      return Some(BadLength), normalized;
    }
    error, domain := LowerLabels(domain);
    if error.None? {
      normalized := domain;
    }
  }

  /** The scan itself, lower-casing as it goes. */
  method LowerLabels(name: string) returns (error: Option<DomainError>, domain: string)
    requires name != ""
    ensures error.None? <==> Accepts(name)
    ensures error.None? ==> domain == Lower(name)
    ensures error != Some(Required) && error != Some(BadLength)
    ensures error.Some? ==> exists i :: FailsAt(name, i, error.value)
  {
    domain := name;
    var labelLength := 0;
    var i := 0;
    while i < |domain|
      invariant 0 <= i <= |domain| == |name|
      invariant forall j :: 0 <= j < |name| ==> domain[j] == if j < i then LowerChar(name[j]) else name[j]
      invariant ScanTo(name, i) == Scan(true, labelLength)
      invariant labelLength > 0 ==> i > 0
    {
      var c := domain[i];
      i := i + 1;
      assert ScanTo(name, i) == ScanChar(Scan(true, labelLength), if i >= 2 then name[i - 2] else '.', c);
      if c == '.' {
        if labelLength == 0 || labelLength > MAX_LABEL || domain[i - 2] == '-' {
          Rejected(name, i);
          assert FailsAt(name, i - 1, BadLabel);
          return Some(BadLabel), domain;
        }
        labelLength := 0;
        continue;
      }
      if !(IsAlnum(c) || c == '-') {
        Rejected(name, i);
        assert FailsAt(name, i - 1, BadCharacter);
        return Some(BadCharacter), domain;
      }
      if labelLength == 0 && c == '-' {
        Rejected(name, i);
        assert FailsAt(name, i - 1, LeadingHyphen);
        return Some(LeadingHyphen), domain;
      }
      domain := domain[i - 1 := LowerChar(c)];
      labelLength := labelLength + 1;
    }
    if labelLength == 0 || labelLength > MAX_LABEL || domain[|domain| - 1] == '-' {
      assert FailsAt(name, |name|, BadLabel);
      return Some(BadLabel), domain;
    }
    return None, domain;
  }

  /** A scan that has failed stays failed. */
  lemma {:induction false} Rejected(s: string, n: nat)
    requires n <= |s| && !ScanTo(s, n).ok
    ensures !Accepts(s)
    decreases |s| - n
  {
    if n < |s| {
      Rejected(s, n + 1);
    }
  }

  // ----- dns-gate's normalize_domain -----

  predicate IsBlank(c: char) { c == ' ' || c == '\t' }

  /** `trim_space`: the text without its spaces and tabs. */
  function TrimSpace(s: string): string {
    if s == "" then ""
    else TrimSpace(s[..|s| - 1]) + if IsBlank(s[|s| - 1]) then "" else [s[|s| - 1]]
  }

  /** Every space and every tab goes, and nothing else. */
  lemma {:induction false} TrimExactly(a: string, c: char, b: string)
    ensures TrimSpace("") == ""
    ensures TrimSpace(a + [c] + b) ==
      TrimSpace(a) + (if c as int == 32 || c as int == 9 then "" else [c]) + TrimSpace(b)
    decreases |b|
  {
    var s := a + [c] + b;
    if b == "" {
      assert s[..|s| - 1] == a;
    } else {
      var k := |b| - 1;
      assert s[..|s| - 1] == a + [c] + b[..k];
      TrimExactly(a, c, b[..k]);
    }
  }

  lemma {:induction false} TrimNothing(s: string)
    requires forall c :: c in s ==> !IsBlank(c)
    ensures TrimSpace(s) == s
  {
    if s != "" {
      assert s == s[..|s| - 1] + [s[|s| - 1]];
      TrimNothing(s[..|s| - 1]);
    }
  }

  /** The second, separately written validator. */
  method NormalizeDomain(value: string) returns (ok: bool, domain: string)
    ensures ok <==> IsDomain(TrimSpace(value))
    ensures domain == Normal(TrimSpace(value))
  {
    var trimmed := Lower(TrimSpace(value));
    domain := DropTrailingDots(trimmed);
    StripLower(TrimSpace(value));
    IsDomainScan(TrimSpace(value));
    AcceptsLower(StripDots(TrimSpace(value)));
    if domain == "" || |domain| > MAX_NAME {
      return false, domain;
    }
    ok := ScanLabels(domain);
  }

  method ScanLabels(domain: string) returns (ok: bool)
    requires domain != ""
    ensures ok <==> Accepts(domain)
  {
    var labelLength := 0;
    var i := 0;
    while i < |domain|
      invariant 0 <= i <= |domain|
      invariant ScanTo(domain, i) == Scan(true, labelLength)
      invariant labelLength > 0 ==> i > 0
    {
      var c := domain[i];
      i := i + 1;
      assert ScanTo(domain, i) == ScanChar(Scan(true, labelLength), if i >= 2 then domain[i - 2] else '.', c);
      if c == '.' {
        if labelLength == 0 || labelLength > MAX_LABEL || domain[i - 2] == '-' {
          Rejected(domain, i);
          return false;
        }
        labelLength := 0;
        continue;
      }
      if (!IsAlnum(c) && c != '-') || (labelLength == 0 && c == '-') {
        Rejected(domain, i);
        return false;
      }
      labelLength := labelLength + 1;
    }
    ok := labelLength > 0 && labelLength <= MAX_LABEL && domain[|domain| - 1] != '-';
  }

  /** On inputs without spaces or tabs both validators see the same text, so verdict and result
      agree; on the others they agree exactly when what is left after trimming is no name. */
  lemma {:induction false} VerdictsAgreeExactly(value: string)
    ensures (IsDomain(value) <==> IsDomain(TrimSpace(value))) <==>
      (forall c :: c in value ==> !IsBlank(c)) || !IsDomain(TrimSpace(value))
    ensures (forall c :: c in value ==> !IsBlank(c)) ==> Normal(TrimSpace(value)) == Normal(value)
  {
    if forall c :: c in value ==> !IsBlank(c) {
      TrimNothing(value);
    } else {
      BlankIsNoName(value);
    }
  }

  lemma {:induction false} BlankIsNoName(value: string)
    requires exists c :: c in value && IsBlank(c)
    ensures !IsDomain(value)
  {
    var name := StripDots(value);
    var n :| 0 <= n < |value| && IsBlank(value[n]);
    assert n < |name| && name[n] == value[n];
    assert !ScanTo(name, n + 1).ok;
    Rejected(name, n + 1);
    IsDomainScan(value);
  }
}
