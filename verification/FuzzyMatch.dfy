/** The search box of the page: substring and greedy subsequence matching of query tokens.
    `lower` stands for the engine's lower-casing; nothing below depends on which letters it maps. */
module FuzzyMatch {
  import opened Text

  predicate IsSeparator(c: char) { c == '.' || c == '_' || c == '-' }

  predicate HasSeparator(s: string) { exists c :: c in s && IsSeparator(c) }

  /** The text without its separators. */
  function Compact(s: string): string {
    if s == "" then ""
    else (if IsSeparator(s[0]) then "" else [s[0]]) + Compact(s[1..])
  }

  /** Every dot, underscore and hyphen goes, and nothing else. */
  lemma {:induction false} CompactExactly(a: string, c: char, b: string)
    ensures Compact("") == ""
    ensures Compact(a + [c] + b) ==
      Compact(a) + (if c as int == 46 || c as int == 95 || c as int == 45 then "" else [c]) + Compact(b)
  {
    CompactAppend(a + [c], b);
    CompactAppend(a, [c]);
    assert [c][1..] == "";
  }

  lemma SeparatorExactly(s: string)
    ensures HasSeparator(s) <==>
      exists n :: 0 <= n < |s| && (s[n] as int == 46 || s[n] as int == 95 || s[n] as int == 45)
  {
    if n :| 0 <= n < |s| && (s[n] as int == 46 || s[n] as int == 95 || s[n] as int == 45) {
      assert s[n] in s;
    }
  }

  /** `t` occurs in `s` at position `i`. */
  predicate OccursAt(s: string, t: string, i: nat) {
    i + |t| <= |s| && s[i..i + |t|] == t
  }

  /** `includes`: `t` is a contiguous part of `s`. */
  predicate Includes(s: string, t: string) {
    exists i :: 0 <= i <= |s| && OccursAt(s, t, i)
  }

  lemma {:induction false} IncludesExactly(s: string, t: string)
    ensures Includes(s, t) <==> exists before, after :: s == before + t + after
  {
    if i :| 0 <= i <= |s| && OccursAt(s, t, i) {
      assert s == s[..i] + t + s[i + |t|..];
    }
    if before, after :| s == before + t + after {
      assert OccursAt(s, t, |before|);
    }
  }

  /** `at` picks positions of `s`, from `from` on and in order, that spell `t`. */
  ghost predicate Spells(s: string, t: string, from: nat, at: seq<nat>) {
    && |at| == |t|
    && (forall n :: 0 <= n < |t| ==> from <= at[n] < |s| && s[at[n]] == t[n])
    && (forall m, n :: 0 <= m < n < |t| ==> at[m] < at[n])
  }

  ghost predicate IsSubsequence(t: string, s: string) {
    exists at :: Spells(s, t, 0, at)
  }

  /** The scan that looks for each character behind the place of the one before. */
  predicate Greedy(s: string, t: string, from: nat)
    requires from <= |s|
    decreases |t|
  {
    t == "" || (var i := Find(s, t[0], from); i < |s| && Greedy(s, t[1..], i + 1))
  }

  lemma {:induction false} GreedySound(s: string, t: string, from: nat) returns (at: seq<nat>)
    requires from <= |s| && Greedy(s, t, from)
    ensures Spells(s, t, from, at)
    decreases |t|
  {
    if t == "" {
      at := [];
    } else {
      var i := Find(s, t[0], from);
      FindExact(s, t[0], from, i);
      var rest := GreedySound(s, t[1..], i + 1);
      at := [i] + rest;
    }
  }

  /** Taking the earliest place for each character never misses a match. */
  lemma {:induction false} GreedyComplete(s: string, t: string, from: nat, at: seq<nat>)
    requires from <= |s| && Spells(s, t, from, at)
    ensures Greedy(s, t, from)
    decreases |t|
  {
    if t != "" {
      var i := Find(s, t[0], from);
      FindExact(s, t[0], from, i);
      assert s[at[0]] == t[0] && from <= at[0] < |s|;
      assert i <= at[0];
      assert Spells(s, t[1..], i + 1, at[1..]) by {
        forall n | 0 <= n < |t| - 1 ensures i + 1 <= at[1..][n] < |s| && s[at[1..][n]] == t[1..][n] {
          assert at[1..][n] == at[n + 1] && at[0] < at[n + 1];
        }
      }
      GreedyComplete(s, t[1..], i + 1, at[1..]);
    }
  }

  lemma GreedyExact(s: string, t: string)
    ensures Greedy(s, t, 0) <==> IsSubsequence(t, s)
  {
    if Greedy(s, t, 0) {
      var at := GreedySound(s, t, 0);
    }
    if at :| Spells(s, t, 0, at) {
      GreedyComplete(s, t, 0, at);
    }
  }

  /** `fuzzyTokenMatches` on lower-cased texts. */
  predicate TokenMatches(source: string, token: string) {
    || token == ""
    || Includes(source, token)
    || Includes(Compact(source), Compact(token))
    || (!HasSeparator(token) && Greedy(Compact(source), Compact(token), 0) && Compact(token) != "")
  }

  method FuzzyTokenMatches(lower: string -> string, value: string, token: string) returns (matches: bool)
    ensures matches <==> TokenMatches(lower(value), lower(token))
  {
    var source := lower(value);
    var normalizedToken := lower(token);
    if normalizedToken == "" {
      return true;
    }
    if Includes(source, normalizedToken) {
      return true;
    }
    var compactSource := Compact(source);
    var compactToken := Compact(normalizedToken);
    if Includes(compactSource, compactToken) {
      return true;
    }
    if HasSeparator(normalizedToken) {
      return false;
    }
    var sourceIndex := 0;
    var n := 0;
    assert compactToken[0..] == compactToken;
    while n < |compactToken|
      invariant 0 <= n <= |compactToken| && 0 <= sourceIndex <= |compactSource|
      invariant Greedy(compactSource, compactToken, 0) <==> Greedy(compactSource, compactToken[n..], sourceIndex)
    {
      assert compactToken[n..][1..] == compactToken[n + 1..];
      sourceIndex := Find(compactSource, compactToken[n], sourceIndex);
      if sourceIndex == |compactSource| {
        return false;
      }
      sourceIndex := sourceIndex + 1;
      n := n + 1;
    }
    return |compactToken| > 0;
  }

  // ----- what a token matches -----

  lemma {:induction false} CompactAppend(a: string, b: string)
    ensures Compact(a + b) == Compact(a) + Compact(b)
  {
    if a == "" {
      assert a + b == b;
    } else {
      assert (a + b)[1..] == a[1..] + b;
      CompactAppend(a[1..], b);
    }
  }

  /** Dropping separators keeps every substring a substring. */
  lemma IncludesCompact(s: string, t: string)
    requires Includes(s, t)
    ensures Includes(Compact(s), Compact(t))
  {
    var i :| 0 <= i <= |s| && OccursAt(s, t, i);
    var a, b := s[..i], s[i + |t|..];
    assert s == a + t + b;
    CompactAppend(a + t, b);
    CompactAppend(a, t);
    assert OccursAt(Compact(s), Compact(t), |Compact(a)|);
  }

  lemma IncludesIsSubsequence(s: string, t: string)
    requires Includes(s, t)
    ensures IsSubsequence(t, s)
  {
    var i :| 0 <= i <= |s| && OccursAt(s, t, i);
    var at := seq(|t|, n requires 0 <= n < |t| => i + n);
    assert forall n :: 0 <= n < |t| ==> s[at[n]] == s[i..i + |t|][n];
    assert Spells(s, t, 0, at);
  }

  lemma {:induction false} CompactPlain(t: string)
    requires !HasSeparator(t)
    ensures Compact(t) == t
  {
    if t != "" {
      assert t[0] in t;
      assert forall c :: c in t[1..] ==> c in t;
      CompactPlain(t[1..]);
    }
  }

  /** Once separators are dropped, the value contains the token: as a contiguous part if the token
      has a separator, as a subsequence otherwise. */
  ghost predicate Contains(source: string, token: string) {
    if HasSeparator(token) then Includes(Compact(source), Compact(token))
    else IsSubsequence(token, Compact(source))
  }

  /** A token without a separator matches exactly the values that contain it as a subsequence once
      their separators are dropped; the substring tests add nothing. A token with a separator
      matches exactly when its separator-free form is a contiguous part of the separator-free
      value; the plain substring test adds nothing. */
  lemma {:induction false} TokenMatchesExactly(source: string, token: string)
    ensures TokenMatches(source, token) <==> Contains(source, token)
  {
    if Includes(source, token) {
      IncludesCompact(source, token);
    }
    if !HasSeparator(token) {
      CompactPlain(token);
      GreedyExact(Compact(source), token);
      if Includes(Compact(source), token) {
        IncludesIsSubsequence(Compact(source), token);
      }
      assert Spells(Compact(source), "", 0, []);
    }
  }

  // ----- queries -----

  /** `split(/\\s+/).filter(Boolean)`: the words between white space; `word` is the one begun. */
  function Words(s: string, word: string): seq<string> {
    var done := if word == "" then [] else [word];
    if s == "" then done
    else if IsSpace(s[0]) then done + Words(s[1..], "")
    else Words(s[1..], word + [s[0]])
  }

  function TrimEnd(s: string): string {
    if s != "" && IsSpace(s[|s| - 1]) then TrimEnd(s[..|s| - 1]) else s
  }

  function QueryTokens(lower: string -> string, query: string): seq<string> {
    Words(lower(TrimEnd(SkipSpace(query))), "")
  }

  predicate FuzzyTextMatches(lower: string -> string, value: string, query: string) {
    forall token :: token in QueryTokens(lower, query) ==> TokenMatches(lower(value), lower(token))
  }

  /** Absent and empty values do not take part. */
  function Fields(values: seq<Option<string>>): (fields: seq<string>)
    ensures forall f :: f in fields <==> f != "" && Some(f) in values
  {
    if values == [] then []
    else (if values[0].Some? && values[0].value != "" then [values[0].value] else []) + Fields(values[1..])
  }

  predicate FuzzyFieldsMatch(lower: string -> string, values: seq<Option<string>>, query: string) {
    forall token :: token in QueryTokens(lower, query) ==>
      exists field :: field in Fields(values) && TokenMatches(lower(field), lower(token))
  }

  lemma {:induction false} WordsArePlain(s: string, word: string)
    requires forall c :: c in word ==> !IsSpace(c)
    ensures forall w :: w in Words(s, word) ==> w != "" && forall c :: c in w ==> !IsSpace(c)
    decreases |s|
  {
    if s != "" {
      WordsArePlain(s[1..], if IsSpace(s[0]) then "" else word + [s[0]]);
    }
  }

  /** Every token is a non-empty text without white space. */
  lemma TokensArePlain(lower: string -> string, query: string)
    ensures forall t :: t in QueryTokens(lower, query) ==> t != "" && forall c :: c in t ==> !IsSpace(c)
  {
    WordsArePlain(lower(TrimEnd(SkipSpace(query))), "");
  }

  /** White space separates: the words before it, then the words behind it. */
  lemma {:induction false} WordsAtSpace(a: string, c: char, b: string, word: string)
    requires IsSpace(c)
    ensures Words(a + [c] + b, word) == Words(a, word) + Words(b, "")
    decreases |a|
  {
    if a == "" {
      assert (a + [c] + b)[1..] == b;
    } else {
      assert (a + [c] + b)[1..] == a[1..] + [c] + b;
      WordsAtSpace(a[1..], c, b, if IsSpace(a[0]) then "" else word + [a[0]]);
    }
  }

  /** Nothing else separates: a text without white space is one word. */
  lemma {:induction false} PlainIsOneWord(s: string, word: string)
    requires word + s != "" && forall c :: c in s ==> !IsSpace(c)
    ensures Words(s, word) == [word + s]
    decreases |s|
  {
    if s == "" {
      assert word + s == word;
    } else {
      assert s[0] in s && forall c :: c in s[1..] ==> c in s;
      assert word + [s[0]] + s[1..] == word + s;
      PlainIsOneWord(s[1..], word + [s[0]]);
    }
  }

  /** What is left after trimming stands between white space and has none at its ends. */
  lemma {:induction false} TrimExactly(query: string)
    ensures exists before, after :: IsTrimmed(query, before, TrimEnd(SkipSpace(query)), after)
  {
    var before := SkipSpaceSuffix(query);
    var t := SkipSpace(query);
    var after := TrimEndPrefix(t);
    assert query == before + TrimEnd(t) + after by {
      assert before + (TrimEnd(t) + after) == before + TrimEnd(t) + after;
    }
    assert IsTrimmed(query, before, TrimEnd(t), after);
  }

  ghost predicate IsTrimmed(s: string, before: string, t: string, after: string) {
    && s == before + t + after
    && (forall c :: c in before ==> IsSpace(c)) && (forall c :: c in after ==> IsSpace(c))
    && (t != "" ==> !IsSpace(t[0]) && !IsSpace(t[|t| - 1]))
  }

  lemma {:induction false} TrimEndPrefix(s: string) returns (after: string)
    ensures s == TrimEnd(s) + after && forall c :: c in after ==> IsSpace(c)
    ensures TrimEnd(s) != "" ==> !IsSpace(TrimEnd(s)[|TrimEnd(s)| - 1])
    ensures s != "" && !IsSpace(s[0]) ==> TrimEnd(s) != "" && TrimEnd(s)[0] == s[0]
  {
    if s != "" && IsSpace(s[|s| - 1]) {
      var k := |s| - 1;
      var rest := TrimEndPrefix(s[..k]);
      after := rest + [s[k]];
      assert s == s[..k] + [s[k]];
    } else {
      after := "";
    }
  }

  /** The tokens are the words of the trimmed and lower-cased query. */
  lemma {:induction false} TokensExactly(lower: string -> string, query: string,
                                         before: string, t: string, after: string)
    requires IsTrimmed(query, before, t, after)
    ensures QueryTokens(lower, query) == Words(lower(t), "")
    ensures Words("", "") == []
  {
    if t == "" {
      assert query == before + after;
      SkipAll(query);
    } else {
      assert query == before + (t + after);
      SkipBlanks(before, t + after);
      TrimAfter(t, after);
    }
  }

  lemma {:induction false} SkipAll(s: string)
    requires forall c :: c in s ==> IsSpace(c)
    ensures SkipSpace(s) == "" && TrimEnd("") == ""
  {
    if s != "" {
      assert s[0] in s && forall c :: c in s[1..] ==> c in s;
      SkipAll(s[1..]);
    }
  }

  lemma {:induction false} TrimAfter(t: string, after: string)
    requires t != "" && !IsSpace(t[|t| - 1]) && forall c :: c in after ==> IsSpace(c)
    ensures TrimEnd(t + after) == t
  {
    if after == "" {
      assert t + after == t;
    } else {
      var k := |after| - 1;
      assert after[k] in after && forall c :: c in after[..k] ==> c in after;
      assert (t + after)[..|t| + k] == t + after[..k];
      TrimAfter(t, after[..k]);
    }
  }

  /** A text is found exactly when it contains every token of the query. */
  lemma {:induction false} TextMatchesExactly(lower: string -> string, value: string, query: string)
    ensures FuzzyTextMatches(lower, value, query) <==>
      forall token :: token in QueryTokens(lower, query) ==> Contains(lower(value), lower(token))
  {
    forall token ensures TokenMatches(lower(value), lower(token)) <==> Contains(lower(value), lower(token)) {
      TokenMatchesExactly(lower(value), lower(token));
    }
  }

  /** A row is found exactly when each token of the query is contained in some present, non-empty
      value, not necessarily the same one. */
  lemma FieldsMatchExactly(lower: string -> string, values: seq<Option<string>>, query: string)
    ensures FuzzyFieldsMatch(lower, values, query) <==>
      forall token :: token in QueryTokens(lower, query) ==>
        exists v :: v != "" && Some(v) in values && Contains(lower(v), lower(token))
  {
    forall v, token ensures TokenMatches(lower(v), lower(token)) <==> Contains(lower(v), lower(token)) {
      TokenMatchesExactly(lower(v), lower(token));
    }
    if FuzzyFieldsMatch(lower, values, query) {
      forall token | token in QueryTokens(lower, query)
        ensures exists v :: v != "" && Some(v) in values && Contains(lower(v), lower(token)) {
        var field :| field in Fields(values) && TokenMatches(lower(field), lower(token));
        assert Contains(lower(field), lower(token));
      }
    } else {
      var token :| token in QueryTokens(lower, query)
        && forall field :: field in Fields(values) ==> !TokenMatches(lower(field), lower(token));
      forall v | v != "" && Some(v) in values ensures !Contains(lower(v), lower(token)) {
        assert v in Fields(values);
      }
    }
  }

  /** With one distinct present value the search over fields is the text search. */
  lemma FieldsMatchOfOne(lower: string -> string, values: seq<Option<string>>, value: string, query: string)
    requires value != "" && Some(value) in values
    requires forall v :: v != "" && Some(v) in values ==> v == value
    ensures FuzzyFieldsMatch(lower, values, query) <==> FuzzyTextMatches(lower, value, query)
  {
    assert forall f :: f in Fields(values) <==> f == value;
  }
}
