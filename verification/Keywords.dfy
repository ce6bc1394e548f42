/** Looking up messages by keyword: the LIKE query of `messages_with_keyword`
    (crates/store/src/messages.rs) against the comma-joined token list that
    `has_keyword` (crates/jmap/src/api.rs) reads. */
module Keywords {
  import opened Text
  import opened Input

  /** SQLite's LIKE: `%` any text, `_` any character, ASCII case ignored. */
  predicate Like(s: string, pattern: string)
    decreases |s| + |pattern|
  {
    if pattern == [] then s == []
    else if pattern[0] == '%' then Like(s, pattern[1..]) || (s != [] && Like(s[1..], pattern))
    else s != [] && (pattern[0] == '_' || LowerChar(s[0]) == LowerChar(pattern[0])) && Like(s[1..], pattern[1..])
  }

  predicate Selected(keywords: string, keyword: string) {
    Like("," + keywords + ",", "%," + keyword + ",%")
  }

  /** Some token is the keyword, up to ASCII case. */
  predicate HasToken(keywords: string, keyword: string) { AnyEqual(Split(keywords, ','), keyword) }

  predicate AnyEqual(tokens: seq<string>, keyword: string) {
    exists i :: 0 <= i < |tokens| && EqIgnoreCase(tokens[i], keyword)
  }

  /** `has_keyword`. */
  predicate HasKeyword(keywords: string, keyword: string) { keyword in Split(keywords, ',') }

  predicate Plain(keyword: string) { ',' !in keyword && '%' !in keyword && '_' !in keyword }

  // ------------------------------------------------------------------
  // The query walks the tokens
  // ------------------------------------------------------------------

  lemma {:induction false} PercentMatchesAll(s: string)
    ensures Like(s, "%")
  {
    assert "%"[1..] == "";
    if s == [] {
    } else {
      PercentMatchesAll(s[1..]);
    }
  }

  function FirstComma(s: string): (j: nat)
    ensures j <= |s| && (j < |s| ==> s[j] == ',') && forall i :: 0 <= i < j ==> s[i] != ','
  {
    if s == [] || s[0] == ',' then 0 else 1 + FirstComma(s[1..])
  }

  lemma {:induction false} EqualHeads(a: string, b: string)
    requires a != [] && b != []
    ensures EqIgnoreCase(a, b) <==> LowerChar(a[0]) == LowerChar(b[0]) && EqIgnoreCase(a[1..], b[1..])
  {
    assert Lower(a) == [LowerChar(a[0])] + Lower(a[1..]) && Lower(b) == [LowerChar(b[0])] + Lower(b[1..]);
    assert Lower(a)[1..] == Lower(a[1..]) && Lower(b)[1..] == Lower(b[1..]);
  }

  /** Right after a comma, the keyword and a comma match exactly the next token. */
  lemma {:induction false} MatchesToken(s: string, keyword: string)
    requires Plain(keyword)
    ensures Like(s + ",", keyword + ",%") <==> EqIgnoreCase(s[..FirstComma(s)], keyword)
  {
    var text, pattern := s + ",", keyword + ",%";
    if keyword == [] {
      assert pattern == ",%" && pattern[1..] == "%";
      PercentMatchesAll(text[1..]);
    } else {
      assert pattern[0] == keyword[0] && pattern[1..] == keyword[1..] + ",%" && keyword[0] in keyword;
      if s == [] || s[0] == ',' {
      } else {
        assert text[1..] == s[1..] + ",";
        MatchesToken(s[1..], keyword[1..]);
        var token := s[..FirstComma(s)];
        assert token[1..] == s[1..][..FirstComma(s[1..])];
        EqualHeads(token, keyword);
      }
    }
  }

  /** A pattern that starts with any text and a comma skips what has no comma. */
  lemma {:induction false} SkipsToComma(s: string, j: nat, pattern: string)
    requires |pattern| >= 2 && pattern[0] == '%' && pattern[1] == ','
    requires j <= |s| && forall i :: 0 <= i < j ==> s[i] != ','
    ensures Like(s, pattern) <==> Like(s[j..], pattern)
  {
    if j == 0 {
    } else {
      assert !Like(s, pattern[1..]);
      SkipsToComma(s[1..], j - 1, pattern);
      assert s[1..][j - 1..] == s[j..];
    }
  }

  function Query(keyword: string): string { "%," + keyword + ",%" }

  /** From a comma on: the next token, or the rest. */
  lemma {:induction false} AtComma(s: string, keyword: string)
    ensures Like("," + s, Query(keyword)) <==> Like(s, keyword + ",%") || Like(s, Query(keyword))
  {
    var text, all := "," + s, Query(keyword);
    assert all[1..] == "," + (keyword + ",%") && text[1..] == s;
    assert all[1..][1..] == keyword + ",%";
  }

  lemma {:induction false} NothingLeft(keyword: string)
    requires Plain(keyword)
    ensures !Like(",", Query(keyword))
  {
    var all := Query(keyword);
    AtComma("", keyword);
    assert "," + "" == ",";
    MatchesNothing(keyword);
    assert all[0] == '%' && all[1..][0] == ',';
  }

  lemma {:induction false} MatchesNothing(keyword: string)
    requires Plain(keyword)
    ensures !Like("", keyword + ",%")
  {
    if keyword != [] { assert (keyword + ",%")[0] == keyword[0] && keyword[0] in keyword; }
  }

  /** The tokens are the text before the first comma and the tokens after it. */
  lemma {:induction false} SplitAtComma(s: string)
    ensures var j := FirstComma(s); Split(s, ',') == [s[..j]] + (if j < |s| then Split(s[j + 1..], ',') else [])
  {
    var j := FirstComma(s);
    if s != [] && s[0] != ',' {
      SplitAtComma(s[1..]);
      assert s[1..][..j - 1] == s[1..j] && s[..j] == [s[0]] + s[1..j];
      if j < |s| { assert s[1..][j..] == s[j + 1..]; }
    } else if s != [] {
      assert s[..0] == [];
    }
  }

  lemma {:induction false} TokensAfter(s: string, keyword: string)
    ensures var j := FirstComma(s);
      HasToken(s, keyword) <==> EqIgnoreCase(s[..j], keyword) || (j < |s| && HasToken(s[j + 1..], keyword))
  {
    var j := FirstComma(s);
    SplitAtComma(s);
    if j < |s| {
      AnyAfterFirst(s[..j], Split(s[j + 1..], ','), keyword);
    } else {
      AnyAfterFirst(s[..j], [], keyword);
      assert Split(s, ',') == [s[..j]] + [];
    }
  }

  lemma {:induction false} AnyAfterFirst(token: string, rest: seq<string>, keyword: string)
    ensures AnyEqual([token] + rest, keyword) <==> EqIgnoreCase(token, keyword) || AnyEqual(rest, keyword)
  {
    var tokens := [token] + rest;
    assert tokens[0] == token;
    if i :| 0 <= i < |rest| && EqIgnoreCase(rest[i], keyword) {
      assert tokens[i + 1] == rest[i];
    }
    if i :| 1 <= i < |tokens| && EqIgnoreCase(tokens[i], keyword) {
      assert tokens[i] == rest[i - 1];
    }
  }

  lemma {:induction false} WalksTokens(s: string, keyword: string)
    requires Plain(keyword)
    ensures Like("," + (s + ","), Query(keyword)) <==> HasToken(s, keyword)
    decreases |s|
  {
    var j, text := FirstComma(s), s + ",";
    AtComma(text, keyword);
    MatchesToken(s, keyword);
    TokensAfter(s, keyword);
    SkipsToComma(text, j, Query(keyword));
    if j < |s| {
      assert text[j..] == "," + (s[j + 1..] + ",");
      WalksTokens(s[j + 1..], keyword);
    } else {
      assert text[j..] == ",";
      NothingLeft(keyword);
    }
  }

  /** For keywords without comma and wildcards, the query selects exactly the
      messages with that token. */
  lemma {:induction false} PlainSelectsTokens(keywords: string, keyword: string)
    requires Plain(keyword)
    ensures Selected(keywords, keyword) <==> HasToken(keywords, keyword)
  {
    WalksTokens(keywords, keyword);
    assert "," + keywords + "," == "," + (keywords + ",");
  }

  // ------------------------------------------------------------------
  // The other keywords
  // ------------------------------------------------------------------

  /** The keyword with a letter for every wildcard. */
  function Filled(keyword: string): (r: string)
    ensures |r| == |keyword|
    ensures forall i :: 0 <= i < |r| ==> r[i] == if keyword[i] == '%' || keyword[i] == '_' then 'z' else keyword[i]
  {
    if keyword == [] then [] else [if keyword[0] == '%' || keyword[0] == '_' then 'z' else keyword[0]] + Filled(keyword[1..])
  }

  lemma {:induction false} FilledMatches(keyword: string, rest: string, pattern: string)
    requires Like(rest, pattern)
    ensures Like(Filled(keyword) + rest, keyword + pattern)
  {
    if keyword == [] {
      assert Filled(keyword) + rest == rest && keyword + pattern == pattern;
    } else {
      FilledMatches(keyword[1..], rest, pattern);
      var s, p := Filled(keyword) + rest, keyword + pattern;
      assert Filled(keyword)[1..] == Filled(keyword[1..]);
      assert s[1..] == Filled(keyword[1..]) + rest && p[1..] == keyword[1..] + pattern;
      if keyword[0] == '%' {
        assert Like(s[1..], p[1..]) && Like(s[1..], p);
      }
    }
  }

  lemma {:induction false} FilledIsSelected(keyword: string)
    ensures Selected(Filled(keyword), keyword)
  {
    var tail := ",%";
    assert tail[1..] == "%" && ","[1..] == "";
    PercentMatchesAll("");
    assert Like(",", tail);
    FilledMatches(keyword, ",", tail);
    var s := "," + Filled(keyword) + ",";
    var p := "," + keyword + tail;
    assert s[1..] == Filled(keyword) + "," && p[1..] == keyword + tail;
    assert Like(s, p);
    var all := "%," + keyword + ",%";
    assert all[1..] == p;
  }

  lemma {:induction false} TokensHaveNoComma(s: string, i: nat)
    requires i < |Split(s, ',')|
    ensures ',' !in Split(s, ',')[i]
    decreases |s|
  {
    var j := FirstComma(s);
    SplitAtComma(s);
    if i == 0 {
    } else {
      TokensHaveNoComma(s[j + 1..], i - 1);
    }
  }

  lemma {:induction false} SameCommas(a: string, b: string)
    requires EqIgnoreCase(a, b) && ',' in b
    ensures ',' in a
  {
    var i :| 0 <= i < |b| && b[i] == ',';
    assert Lower(a)[i] == Lower(b)[i] == ',';
  }

  lemma {:induction false} FilledIsNoToken(keyword: string)
    requires !Plain(keyword)
    ensures !HasToken(Filled(keyword), keyword)
  {
    var tokens := Split(Filled(keyword), ',');
    if ',' in keyword {
      forall i | 0 <= i < |tokens| ensures !EqIgnoreCase(tokens[i], keyword) {
        TokensHaveNoComma(Filled(keyword), i);
        if EqIgnoreCase(tokens[i], keyword) { SameCommas(tokens[i], keyword); }
      }
    } else {
      NoSepNoSplit(Filled(keyword), ',');
      var k :| 0 <= k < |keyword| && (keyword[k] == '%' || keyword[k] == '_');
      assert Lower(Filled(keyword))[k] == 'z' != Lower(keyword)[k];
    }
  }

  /** The query agrees with the tokens on every message exactly for keywords free of
      comma, `%` and `_`. */
  lemma {:induction false} SelectsTokensExactly(keyword: string)
    ensures (forall keywords :: Selected(keywords, keyword) == HasToken(keywords, keyword)) <==> Plain(keyword)
  {
    if Plain(keyword) {
      forall keywords ensures Selected(keywords, keyword) == HasToken(keywords, keyword) {
        PlainSelectsTokens(keywords, keyword);
      }
    } else {
      FilledIsSelected(keyword);
      FilledIsNoToken(keyword);
    }
  }

  predicate IsLetter(c: char) { 'a' <= c <= 'z' || 'A' <= c <= 'Z' }

  predicate Caseless(s: string) { forall i :: 0 <= i < |s| ==> !IsLetter(s[i]) }

  function SwapCase(c: char): char {
    if 'a' <= c <= 'z' then (c as int - 32) as char else if 'A' <= c <= 'Z' then (c as int + 32) as char else c
  }

  lemma {:induction false} CaselessEqual(t: string, keyword: string)
    requires Caseless(keyword) && EqIgnoreCase(t, keyword)
    ensures t == keyword
  {
    assert |t| == |Lower(t)| == |keyword|;
    forall i | 0 <= i < |t| ensures t[i] == keyword[i] {
      assert Lower(t)[i] == Lower(keyword)[i];
    }
  }

  lemma {:induction false} CaselessTokens(keywords: string, keyword: string)
    requires Caseless(keyword)
    ensures HasToken(keywords, keyword) <==> HasKeyword(keywords, keyword)
  {
    var tokens := Split(keywords, ',');
    if i :| 0 <= i < |tokens| && EqIgnoreCase(tokens[i], keyword) {
      CaselessEqual(tokens[i], keyword);
    }
  }

  /** The keyword with one letter in the other case. */
  lemma {:induction false} OtherCase(keyword: string, i: nat) returns (other: string)
    requires Plain(keyword) && i < |keyword| && IsLetter(keyword[i])
    ensures HasToken(other, keyword) && !HasKeyword(other, keyword)
  {
    other := keyword[i := SwapCase(keyword[i])];
    assert forall k :: 0 <= k < |keyword| ==> Lower(other)[k] == Lower(keyword)[k];
    assert Lower(other) == Lower(keyword);
    assert other[i] != keyword[i];
    assert ',' !in other by {
      assert forall k :: 0 <= k < |other| && k != i ==> other[k] == keyword[k] && keyword[k] in keyword;
    }
    NoSepNoSplit(other, ',');
    assert Split(other, ',')[0] == other;
  }

  /** `has_keyword` compares tokens exactly, so it agrees with the query on every
      message exactly for keywords free of comma, `%`, `_` and letters. */
  lemma {:induction false} SelectsKeywordExactly(keyword: string)
    ensures (forall keywords :: Selected(keywords, keyword) == HasKeyword(keywords, keyword)) <==> Plain(keyword) && Caseless(keyword)
  {
    if !Plain(keyword) {
      FilledIsSelected(keyword);
      FilledIsNoToken(keyword);
      KeywordIsToken(Filled(keyword), keyword);
    } else if Caseless(keyword) {
      forall keywords ensures Selected(keywords, keyword) == HasKeyword(keywords, keyword) {
        PlainSelectsTokens(keywords, keyword);
        CaselessTokens(keywords, keyword);
      }
    } else {
      var i: nat :| i < |keyword| && IsLetter(keyword[i]);
      var other := OtherCase(keyword, i);
      PlainSelectsTokens(other, keyword);
    }
  }

  lemma {:induction false} KeywordIsToken(keywords: string, keyword: string)
    ensures HasKeyword(keywords, keyword) ==> HasToken(keywords, keyword)
  {
    var tokens := Split(keywords, ',');
    if HasKeyword(keywords, keyword) {
      var i :| 0 <= i < |tokens| && tokens[i] == keyword;
      assert EqIgnoreCase(tokens[i], keyword);
    }
  }
}
