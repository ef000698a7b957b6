/** `ManimRenderer.parseInfoString`: the options line after the `manim`
    fence label is cut into tokens at runs of whitespace; a token counts when
    it splits on `=` into exactly two parts whose trimmed first part is
    `scene`, `format` or `quality`, and a later token overwrites an earlier
    one with the same key. */
module InfoString {
  import opened Wrappers
  import opened Text

  /** The only keys ever recorded. */
  const Recognized: set<string> := {"scene", "format", "quality"}

  // ---------------------------------------------------------------------
  // `info.split(/\s+/)` and `trim()`

  /** Drops the leading whitespace (`trimStart`). */
  function TrimStart(s: string): (r: string)
    ensures |r| <= |s|
  {
    if s != [] && IsWhitespace(s[0]) then TrimStart(s[1..]) else s
  }

  /** Drops the trailing whitespace (`trimEnd`). */
  function TrimEnd(s: string): (r: string)
    ensures |r| <= |s|
  {
    if s != [] && IsWhitespace(s[|s| - 1]) then TrimEnd(s[..|s| - 1]) else s
  }

  /** `trimStart` drops exactly the leading run of whitespace. */
  lemma {:induction false} TrimStartDropsLeadingWhitespace(s: string)
    ensures var r := TrimStart(s);
      && r == s[|s| - |r|..]
      && (r == [] || !IsWhitespace(r[0]))
      && forall i :: 0 <= i < |s| - |r| ==> IsWhitespace(s[i])
  {
    if s != [] && IsWhitespace(s[0]) {
      TrimStartDropsLeadingWhitespace(s[1..]);
      var r := TrimStart(s);
      assert s[1..][|s| - 1 - |r|..] == s[|s| - |r|..];
      forall i | 1 <= i < |s| - |r| ensures IsWhitespace(s[i]) {
        assert s[i] == s[1..][i - 1];
      }
    }
  }

  /** `trimEnd` drops exactly the trailing run of whitespace. */
  lemma {:induction false} TrimEndDropsTrailingWhitespace(s: string)
    ensures var r := TrimEnd(s);
      && r == s[..|r|]
      && (r == [] || !IsWhitespace(r[|r| - 1]))
      && forall i :: |r| <= i < |s| ==> IsWhitespace(s[i])
  {
    if s != [] && IsWhitespace(s[|s| - 1]) {
      var t := s[..|s| - 1];
      TrimEndDropsTrailingWhitespace(t);
      var r := TrimEnd(s);
      assert t[..|r|] == s[..|r|];
      forall i | |r| <= i < |s| - 1 ensures IsWhitespace(s[i]) {
        assert s[i] == t[i];
      }
    }
  }

  function Trim(s: string): string {
    TrimEnd(TrimStart(s))
  }

  /** Trimming a string without whitespace leaves it as it is. */
  lemma TrimWithoutWhitespace(s: string)
    requires NoWhitespace(s)
    ensures Trim(s) == s
  {
    assert s == [] || !IsWhitespace(s[0]);
    assert TrimStart(s) == s;
    assert s == [] || !IsWhitespace(s[|s| - 1]);
  }

  /** The tokens of `cur + s` where `cur` is the token read so far: a
      whitespace run ends the current token (so leading and trailing
      whitespace give an empty first or last token, as the regular
      expression split does). */
  function SplitWhitespace(s: string, cur: string): (tokens: seq<string>)
    ensures |tokens| >= 1
    decreases |s|
  {
    if s == [] then [cur]
    else if IsWhitespace(s[0]) then [cur] + SplitWhitespace(TrimStart(s), [])
    else SplitWhitespace(s[1..], cur + [s[0]])
  }

  lemma {:induction false} SplitWhitespaceTokens(s: string, cur: string)
    requires NoWhitespace(cur)
    ensures forall k :: 0 <= k < |SplitWhitespace(s, cur)| ==> NoWhitespace(SplitWhitespace(s, cur)[k])
    decreases |s|
  {
    if s == [] {
    } else if IsWhitespace(s[0]) {
      SplitWhitespaceTokens(TrimStart(s), []);
    } else {
      SplitWhitespaceTokens(s[1..], cur + [s[0]]);
    }
  }

  /** `info.split(/\s+/)`. */
  function Tokens(info: string): seq<string> {
    SplitWhitespace(info, [])
  }

  /** The characters of `s` that are not whitespace, in order. */
  function NonWhitespace(s: string): string {
    if s == [] then []
    else (if IsWhitespace(s[0]) then [] else [s[0]]) + NonWhitespace(s[1..])
  }

  lemma {:induction false} NonWhitespaceSkipsLeading(s: string)
    ensures NonWhitespace(TrimStart(s)) == NonWhitespace(s)
  {
    if s != [] && IsWhitespace(s[0]) { NonWhitespaceSkipsLeading(s[1..]); }
  }

  lemma {:induction false} SplitWhitespaceKeepsText(s: string, cur: string)
    ensures Concat(SplitWhitespace(s, cur)) == cur + NonWhitespace(s)
    decreases |s|
  {
    if s == [] {
    } else if IsWhitespace(s[0]) {
      var rest := SplitWhitespace(TrimStart(s), []);
      SplitWhitespaceKeepsText(TrimStart(s), []);
      NonWhitespaceSkipsLeading(s);
      assert ([cur] + rest)[1..] == rest;
    } else {
      SplitWhitespaceKeepsText(s[1..], cur + [s[0]]);
    }
  }

  /** Tokenising loses nothing but whitespace: the tokens, concatenated, are
      the non-whitespace characters of the line in order, and no token holds
      whitespace. */
  lemma TokensPartitionLine(info: string)
    ensures Concat(Tokens(info)) == NonWhitespace(info)
    ensures forall k :: 0 <= k < |Tokens(info)| ==> NoWhitespace(Tokens(info)[k])
  {
    SplitWhitespaceKeepsText(info, []);
    SplitWhitespaceTokens(info, []);
  }

  /** A run of non-whitespace characters only extends the current token. */
  lemma {:induction false} SplitWhitespaceWord(w: string, rest: string, cur: string)
    requires NoWhitespace(w)
    ensures SplitWhitespace(w + rest, cur) == SplitWhitespace(rest, cur + w)
    decreases |w|
  {
    if w != [] {
      assert (w + rest)[0] == w[0] && !IsWhitespace(w[0]);
      assert (w + rest)[1..] == w[1..] + rest;
      assert NoWhitespace(w[1..]) by {
        forall i | 0 <= i < |w[1..]| ensures !IsWhitespace(w[1..][i]) { assert w[1..][i] == w[i + 1]; }
      }
      SplitWhitespaceWord(w[1..], rest, cur + [w[0]]);
      assert cur + [w[0]] + w[1..] == cur + w;
    } else {
      assert w + rest == rest && cur + w == cur;
    }
  }

  /** Splitting words joined by single spaces gives the words back, the
      first one appended to the token read so far. */
  lemma {:induction false} SplitWhitespaceOfJoin(ts: seq<string>, cur: string)
    requires |ts| >= 1
    requires forall k :: 0 <= k < |ts| ==> ts[k] != [] && NoWhitespace(ts[k])
    ensures SplitWhitespace(Join(ts, ' '), cur) == [cur + ts[0]] + ts[1..]
    decreases |ts|
  {
    if |ts| == 1 {
      SplitWhitespaceWord(ts[0], [], cur);
      assert ts[0] + [] == ts[0];
    } else {
      var tail := Join(ts[1..], ' ');
      assert Join(ts, ' ') == ts[0] + ([' '] + tail);
      SplitWhitespaceWord(ts[0], [' '] + tail, cur);
      assert IsWhitespace(' ');
      JoinStartsWithFirst(ts[1..], ' ');
      assert tail[0] == ts[1][0];
      assert TrimStart([' '] + tail) == tail by {
        assert ([' '] + tail)[1..] == tail;
      }
      SplitWhitespaceOfJoin(ts[1..], []);
      assert [] + ts[1] == ts[1];
      assert [ts[1]] + ts[1..][1..] == ts[1..];
    }
  }

  lemma JoinStartsWithFirst(ts: seq<string>, sep: char)
    requires |ts| >= 1
    ensures |ts[0]| <= |Join(ts, sep)| && Join(ts, sep)[..|ts[0]|] == ts[0]
  {
    if |ts| > 1 {
      assert Join(ts, sep) == ts[0] + ([sep] + Join(ts[1..], sep));
    }
  }

  lemma NoWhitespaceSuffix(a: string, b: string)
    requires NoWhitespace(a + b)
    ensures NoWhitespace(b)
  {
    forall i | 0 <= i < |b| ensures !IsWhitespace(b[i]) {
      assert b[i] == (a + b)[|a| + i];
    }
  }

  /** The round trip of tokenising: non-empty words without whitespace,
      joined by single spaces, tokenise back to the same words. */
  lemma TokensOfJoin(ts: seq<string>)
    requires |ts| >= 1
    requires forall k :: 0 <= k < |ts| ==> ts[k] != [] && NoWhitespace(ts[k])
    ensures Tokens(Join(ts, ' ')) == ts
  {
    SplitWhitespaceOfJoin(ts, []);
    assert [] + ts[0] == ts[0];
  }

  // ---------------------------------------------------------------------
  // One token, and the whole line

  /** What one token records: `(key, value)` when it splits on `=` into
      exactly two parts and the trimmed key is recognized. */
  function TokenEntry(token: string): Option<(string, string)> {
    var kv := Split(token, '=');
    if |kv| == 2 then
      var k := Trim(kv[0]);
      var v := Trim(kv[1]);
      if k in Recognized then Some((k, v)) else None
    else None
  }

  predicate SetsKey(token: string, key: string) {
    TokenEntry(token).Some? && TokenEntry(token).value.0 == key
  }

  function Apply(result: map<string, string>, token: string): map<string, string> {
    var entry := TokenEntry(token);
    if entry.Some? then result[entry.value.0 := entry.value.1] else result
  }

  /** The options recorded by a sequence of tokens, read left to right. */
  function Fold(tokens: seq<string>): map<string, string> {
    if tokens == [] then map[]
    else Apply(Fold(tokens[..|tokens| - 1]), tokens[|tokens| - 1])
  }

  /** A `key=value` token records its trimmed value under a recognised key. */
  lemma ApplyPair(result: map<string, string>, token: string)
    requires |Split(token, '=')| == 2
    ensures var k, v := Trim(Split(token, '=')[0]), Trim(Split(token, '=')[1]);
      Apply(result, token) == if k in Recognized then result[k := v] else result
  {
    var kv := Split(token, '=');
    var k, v := Trim(kv[0]), Trim(kv[1]);
    if k in Recognized {
      assert TokenEntry(token) == Some((k, v));
    } else {
      assert TokenEntry(token) == None;
    }
  }

  /** A token that does not split into exactly two pieces records nothing. */
  lemma ApplyOther(result: map<string, string>, token: string)
    requires |Split(token, '=')| != 2
    ensures Apply(result, token) == result
  {
    TokenEntryCases(token);
  }

  /** Folding one more token. */
  lemma FoldStep(tokens: seq<string>, i: nat)
    requires i < |tokens|
    ensures Fold(tokens[..i + 1]) == Apply(Fold(tokens[..i]), tokens[i])
  {
    assert tokens[..i + 1][..i] == tokens[..i];
  }

  /** What `parseInfoString` returns: nothing for an empty line. */
  function ParseInfo(info: string): map<string, string> {
    if info == "" then map[] else Fold(Tokens(info))
  }

  lemma TokenEntryCases(token: string)
    ensures var kv := Split(token, '=');
      TokenEntry(token) == if |kv| == 2 && Trim(kv[0]) in Recognized then Some((Trim(kv[0]), Trim(kv[1]))) else None
  {
  }

  /** The three `if (k === …) result.… = v` statements of the loop body. */
  method SetOption(result: map<string, string>, k: string, v: string) returns (updated: map<string, string>)
    ensures updated == if k in Recognized then result[k := v] else result
  {
    updated := result;
    if k == "scene" { updated := updated["scene" := v]; }
    if k == "format" { updated := updated["format" := v]; }
    if k == "quality" { updated := updated["quality" := v]; }
  }

  /** The loop body for one token `p`. */
  method ApplyToken(result: map<string, string>, p: string) returns (updated: map<string, string>)
    ensures updated == Apply(result, p)
  {
    updated := result;
    var kv := Split(p, '=');
    if |kv| == 2 {
      var k := Trim(kv[0]);
      var v := Trim(kv[1]);
      updated := SetOption(result, k, v);
      ApplyPair(result, p);
    } else {
      ApplyOther(result, p);
    }
  }

  /** The source's loop: the result object is updated in place, token by token. */
  method ParseInfoString(info: string) returns (result: map<string, string>)
    ensures result == ParseInfo(info)
  {
    result := map[];
    if info == "" {
      return;
    }
    var parts := Tokens(info);
    var i := 0;
    while i < |parts|
      invariant 0 <= i <= |parts|
      invariant result == Fold(parts[..i])
    {
      result := ApplyToken(result, parts[i]);
      FoldStep(parts, i);
      i := i + 1;
    }
    assert parts[..i] == parts;
  }

  // ---------------------------------------------------------------------
  // Properties

  /** An empty line records nothing. */
  lemma EmptyLineRecordsNothing()
    ensures ParseInfo("") == map[]
  {
  }

  /** Only `scene`, `format` and `quality` are ever recorded. */
  lemma {:induction false} FoldKeys(tokens: seq<string>)
    ensures Fold(tokens).Keys <= Recognized
  {
    if tokens != [] { FoldKeys(tokens[..|tokens| - 1]); }
  }

  lemma ParseInfoKeys(info: string)
    ensures ParseInfo(info).Keys <= Recognized
  {
    if info != "" { FoldKeys(Tokens(info)); }
  }

  /** A token without `=`, or with two or more, records nothing. */
  lemma MalformedTokenIgnored(token: string)
    requires multiset(token)['='] != 1
    ensures TokenEntry(token) == None
  {
    SplitCount(token, '=');
  }

  lemma RecognizedKeysArePlain(key: string)
    requires key in Recognized
    ensures '=' !in key && NoWhitespace(key)
  {
    if key == "scene" {
      assert NoWhitespace("scene");
    } else if key == "format" {
      assert NoWhitespace("format");
    } else {
      assert NoWhitespace("quality");
    }
  }

  /** A token `key=value` with a recognized key records exactly that pair,
      the empty value included. */
  lemma WellFormedTokenRecorded(key: string, value: string)
    requires key in Recognized
    requires '=' !in value && NoWhitespace(value)
    ensures TokenEntry(key + "=" + value) == Some((key, value))
  {
    RecognizedKeysArePlain(key);
    SplitPair(key, value);
    EntryOfPair(key, value);
  }

  lemma SplitPair(key: string, value: string)
    requires '=' !in key && '=' !in value
    ensures Split(key + "=" + value, '=') == [key, value]
  {
    SplitAfterPrefix(key, '=', value);
    SplitWithoutSeparator(value, '=');
  }

  lemma EntryOfPair(key: string, value: string)
    requires key in Recognized && NoWhitespace(key) && NoWhitespace(value)
    requires Split(key + "=" + value, '=') == [key, value]
    ensures TokenEntry(key + "=" + value) == Some((key, value))
  {
    TrimWithoutWhitespace(key);
    TrimWithoutWhitespace(value);
    TokenEntryCases(key + "=" + value);
  }

  /** Tokens never hold whitespace, so the two `trim()` calls change nothing:
      the recorded pair is exactly the two parts of the token. */
  lemma TrimsAreNoOps(info: string, k: nat)
    requires k < |Tokens(info)|
    ensures var kv := Split(Tokens(info)[k], '=');
      forall j :: 0 <= j < |kv| ==> Trim(kv[j]) == kv[j]
  {
    TokensPartitionLine(info);
    var t := Tokens(info)[k];
    var kv := Split(t, '=');
    JoinSplit(t, '=');
    forall j | 0 <= j < |kv|
      ensures Trim(kv[j]) == kv[j]
    {
      PieceOfJoin(kv, '=', j);
      forall i | 0 <= i < |kv[j]|
        ensures !IsWhitespace(kv[j][i])
      {
        assert kv[j][i] in t;
      }
      TrimWithoutWhitespace(kv[j]);
    }
  }

  /** Every character of a piece occurs in the joined string. */
  lemma {:induction false} PieceOfJoin(parts: seq<string>, sep: char, j: nat)
    requires |parts| >= 1 && j < |parts|
    ensures forall c :: c in parts[j] ==> c in Join(parts, sep)
  {
    if |parts| > 1 && j > 0 {
      PieceOfJoin(parts[1..], sep, j - 1);
    }
  }

  /** The fold over what each token records, with the tokens themselves out
      of the picture. */
  function Record(result: map<string, string>, entry: Option<(string, string)>): map<string, string> {
    match entry
    case Some((k, v)) => result[k := v]
    case None => result
  }

  function FoldEntries(entries: seq<Option<(string, string)>>): map<string, string> {
    if entries == [] then map[]
    else Record(FoldEntries(entries[..|entries| - 1]), entries[|entries| - 1])
  }

  function Entries(tokens: seq<string>): (es: seq<Option<(string, string)>>)
    ensures |es| == |tokens| && forall j :: 0 <= j < |tokens| ==> es[j] == TokenEntry(tokens[j])
  {
    seq(|tokens|, j requires 0 <= j < |tokens| => TokenEntry(tokens[j]))
  }

  lemma {:induction false} FoldByEntries(tokens: seq<string>)
    ensures Fold(tokens) == FoldEntries(Entries(tokens))
  {
    if tokens != [] {
      var n := |tokens|;
      FoldByEntries(tokens[..n - 1]);
      assert Entries(tokens)[..n - 1] == Entries(tokens[..n - 1]);
    }
  }

  predicate EntrySets(entry: Option<(string, string)>, key: string) {
    entry.Some? && entry.value.0 == key
  }

  lemma {:induction false} LastEntryWins(entries: seq<Option<(string, string)>>, key: string)
    ensures key in FoldEntries(entries) <==> exists j :: 0 <= j < |entries| && EntrySets(entries[j], key)
    ensures key in FoldEntries(entries) ==>
      exists j :: 0 <= j < |entries| && entries[j] == Some((key, FoldEntries(entries)[key]))
        && forall j' :: j < j' < |entries| ==> !EntrySets(entries[j'], key)
  {
    if entries != [] {
      var n := |entries|;
      var init, last := entries[..n - 1], entries[n - 1];
      LastEntryWins(init, key);
      assert forall j :: 0 <= j < n - 1 ==> init[j] == entries[j];
      if !EntrySets(last, key) && key in FoldEntries(init) {
        var j :| 0 <= j < n - 1 && init[j] == Some((key, FoldEntries(init)[key]))
          && forall j' :: j < j' < n - 1 ==> !EntrySets(init[j'], key);
        assert entries[j] == Some((key, FoldEntries(entries)[key]));
      }
    }
  }

  /** The last token that sets a key decides its value. */
  lemma {:induction false} FoldLastSetter(tokens: seq<string>, j: nat, key: string, value: string)
    requires j < |tokens| && TokenEntry(tokens[j]) == Some((key, value))
    requires forall j' :: j < j' < |tokens| ==> !SetsKey(tokens[j'], key)
    ensures key in Fold(tokens) && Fold(tokens)[key] == value
  {
    var n := |tokens|;
    if j < n - 1 {
      var init := tokens[..n - 1];
      assert forall j' :: j < j' < n - 1 ==> init[j'] == tokens[j'];
      FoldLastSetter(init, j, key, value);
    }
  }

  /** The options line as a whole: on a line of words separated by single
      spaces, a word `key=value` with a recognised key and no later word
      setting that key records exactly `value` under `key`. */
  lemma LineRecordsPair(ts: seq<string>, j: nat, key: string, value: string)
    requires forall k :: 0 <= k < |ts| ==> ts[k] != [] && NoWhitespace(ts[k])
    requires j < |ts| && ts[j] == key + "=" + value
    requires key in Recognized && '=' !in value
    requires forall j' :: j < j' < |ts| ==> !SetsKey(ts[j'], key)
    ensures key in ParseInfo(Join(ts, ' ')) && ParseInfo(Join(ts, ' '))[key] == value
  {
    TokensOfJoin(ts);
    JoinStartsWithFirst(ts, ' ');
    NoWhitespaceSuffix(key + "=", value);
    WellFormedTokenRecorded(key, value);
    FoldLastSetter(ts, j, key, value);
  }

  /** Last occurrence wins: a key is recorded exactly when some token of the
      line sets it, and its value is the one the last such token gives. */
  lemma LastOccurrenceWins(info: string, key: string)
    requires info != ""
    ensures var tokens := Tokens(info);
      key in ParseInfo(info) <==> exists j :: 0 <= j < |tokens| && SetsKey(tokens[j], key)
    ensures var tokens := Tokens(info);
      key in ParseInfo(info) ==>
        exists j :: 0 <= j < |tokens| && TokenEntry(tokens[j]) == Some((key, ParseInfo(info)[key]))
          && forall j' :: j < j' < |tokens| ==> !SetsKey(tokens[j'], key)
  {
    var tokens := Tokens(info);
    var es := Entries(tokens);
    FoldByEntries(tokens);
    LastEntryWins(es, key);
    assert forall j :: 0 <= j < |tokens| ==> (SetsKey(tokens[j], key) <==> EntrySets(es[j], key));
  }
}
