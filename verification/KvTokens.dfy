/** Splitting a request line into tokens at spaces. */
module KvTokens {
  import opened CStrings
  import opened Sequences

  /** How many characters stand before the first space. */
  function WordLength(s: string): (n: nat)
    ensures n <= |s| && (forall i :: 0 <= i < n ==> s[i] != ' ') && (n < |s| ==> s[n] == ' ')
  {
    if s == [] || s[0] == ' ' then 0 else
      assert forall i :: 0 < i < |s| ==> s[i] == s[1..][i - 1];
      1 + WordLength(s[1..])
  }

  /** The tokens that `strtok` finds: the maximal runs of characters other than the space. */
  function Words(s: CString): seq<CString>
    decreases |s|
  {
    if s == [] then []
    else if s[0] == ' ' then Words(s[1..])
    else
      var n := WordLength(s);
      [s[..n]] + Words(s[n..])
  }

  predicate IsWord(s: string) {
    s != [] && ' ' !in s
  }

  /** The tokens with one space between them. */
  function Joined(tokens: seq<CString>): CString {
    if tokens == [] then ""
    else if |tokens| == 1 then tokens[0]
    else tokens[0] + " " + Joined(tokens[1..])
  }

  lemma JoinedOne(c: CString)
    ensures Joined([c]) == c
  {
  }

  lemma JoinedTwo(p: string, c: string, k: CString)
    requires forall i :: 0 <= i < |p + c| ==> 0 < (p + c)[i] as int < 256
    ensures Joined([p + c, k]) == p + (c + " " + k)
  {
    assert [p + c, k][1..] == [k];
    Reassociated(p, c, " ");
    Reassociated(p, c + " ", k);
  }

  lemma JoinedThree(p: string, c: string, k: CString, v: CString)
    requires forall i :: 0 <= i < |p + c| ==> 0 < (p + c)[i] as int < 256
    ensures Joined([p + c, k, v]) == p + (c + " " + (k + (" " + v)))
  {
    assert [p + c, k, v][1..] == [k, v] && [k, v][1..] == [v];
    assert Joined([k, v]) == k + " " + v;
    Reassociated(k, " ", v);
    Reassociated(p, c, " ");
    Reassociated(p, c + " ", k + (" " + v));
  }

  /** The server finds the tokens that a client put into a line. */
  lemma {:induction false} WordsJoined(tokens: seq<CString>)
    requires forall i :: 0 <= i < |tokens| ==> IsWord(tokens[i])
    ensures Words(Joined(tokens)) == tokens
  {
    if tokens != [] {
      var s, w := Joined(tokens), tokens[0];
      assert s[..|w|] == w;
      FirstWord(s, w);
      if |tokens| > 1 {
        WordsJoined(tokens[1..]);
        assert s[|w|..] == " " + Joined(tokens[1..]);
        assert s[|w|..][1..] == Joined(tokens[1..]);
      }
    }
  }

  lemma FirstWord(s: string, w: string)
    requires IsWord(w) && w <= s && (|s| > |w| ==> s[|w|] == ' ')
    ensures WordLength(s) == |w|
  {
    assert forall i :: 0 <= i < |w| ==> s[i] == w[i];
  }

  predicate Spaces(s: string) {
    forall i :: 0 <= i < |s| ==> s[i] == ' '
  }

  /** The line with `gaps[i]` before the token `i`, and the last gap behind the last token. */
  function Spread(gaps: seq<CString>, tokens: seq<CString>): CString
    requires |gaps| == |tokens| + 1
  {
    if tokens == [] then gaps[0] else gaps[0] + (tokens[0] + Spread(gaps[1..], tokens[1..]))
  }

  /** The gaps are spaces, and tokens next to each other are kept apart. */
  predicate Apart(gaps: seq<CString>, tokens: seq<CString>) {
    && |gaps| == |tokens| + 1
    && (forall i :: 0 <= i < |gaps| ==> Spaces(gaps[i]) && (0 < i < |tokens| ==> gaps[i] != []))
    && forall i :: 0 <= i < |tokens| ==> tokens[i] != [] && ' ' !in tokens[i]
  }

  lemma {:induction false} SpacesSkipped(gap: CString, s: CString)
    requires Spaces(gap)
    ensures Words(gap + s) == Words(s)
  {
    if gap == [] {
      assert gap + s == s;
    } else {
      assert (gap + s)[1..] == gap[1..] + s;
      SpacesSkipped(gap[1..], s);
    }
  }

  lemma TokenTaken(w: CString, s: CString)
    requires w != [] && ' ' !in w && (s == [] || s[0] == ' ')
    ensures Words(w + s) == [w] + Words(s)
  {
    var line := w + s;
    assert line[..|w|] == w && line[|w|..] == s;
    FirstWord(line, w);
    assert line[0] == w[0] != ' ';
  }

  lemma GapFollows(gaps: seq<CString>, tokens: seq<CString>)
    requires Apart(gaps, tokens) && tokens != []
    ensures Apart(gaps[1..], tokens[1..])
    ensures var rest := Spread(gaps[1..], tokens[1..]); rest == [] || rest[0] == ' '
  {
    assert |tokens| > 1 ==> Spread(gaps[1..], tokens[1..])[0] == gaps[1][0] == ' ';
    assert |tokens| == 1 ==> Spread(gaps[1..], tokens[1..]) == gaps[1];
  }

  /** Whatever the gaps are, the server finds exactly the tokens between them. */
  lemma {:induction false} WordsSpread(gaps: seq<CString>, tokens: seq<CString>)
    requires Apart(gaps, tokens)
    ensures Words(Spread(gaps, tokens)) == tokens
  {
    if tokens == [] {
      SpacesSkipped(gaps[0], []);
      assert gaps[0] + [] == gaps[0];
    } else {
      hide Words, Spaces;
      var rest := Spread(gaps[1..], tokens[1..]);
      WordsSpread(gaps[1..], tokens[1..]);
      GapFollows(gaps, tokens);
      TokenTaken(tokens[0], rest);
      SpacesSkipped(gaps[0], tokens[0] + rest);
    }
  }

  lemma SpaceAdded(g: seq<CString>, tokens: seq<CString>)
    requires Apart(g, tokens)
    ensures var g' := [" " + g[0]] + g[1..]; Apart(g', tokens) && Spread(g', tokens) == " " + Spread(g, tokens)
  {
    var g' := [" " + g[0]] + g[1..];
    assert g'[1..] == g[1..];
    if tokens != [] {
      Reassociated(" ", g[0], tokens[0] + Spread(g[1..], tokens[1..]));
    }
  }

  lemma TokenAdded(w: CString, g: seq<CString>, tokens: seq<CString>)
    requires Apart(g, tokens) && w != [] && ' ' !in w && (tokens != [] ==> g[0] != [])
    ensures Apart([""] + g, [w] + tokens) && Spread([""] + g, [w] + tokens) == w + Spread(g, tokens)
  {
    assert ([""] + g)[1..] == g && ([w] + tokens)[1..] == tokens;
  }

  /** Every line is made of gaps and of the tokens that the server finds. */
  lemma {:induction false} LineSpread(s: CString) returns (gaps: seq<CString>)
    ensures Apart(gaps, Words(s)) && Spread(gaps, Words(s)) == s
    decreases |s|
  {
    hide Apart, Spread;
    if s == [] {
      gaps := [""];
      NoTokens();
    } else if s[0] == ' ' {
      var g := LineSpread(s[1..]);
      ApartLength(g, Words(s[1..]));
      SpaceAdded(g, Words(s[1..]));
      gaps := [" " + g[0]] + g[1..];
      assert s == " " + s[1..];
    } else {
      var n := WordLength(s);
      var g := LineSpread(s[n..]);
      ApartLength(g, Words(s[n..]));
      GapAfter(s, n, g);
      TokenAdded(s[..n], g, Words(s[n..]));
      gaps := [""] + g;
      assert s == s[..n] + s[n..];
    }
  }

  lemma NoTokens()
    ensures Apart([""], []) && Spread([""], []) == ""
  {
  }

  lemma ApartLength(g: seq<CString>, tokens: seq<CString>)
    requires Apart(g, tokens)
    ensures |g| == |tokens| + 1
  {
  }

  lemma StartsWithToken(gap: string, w: string, rest: string)
    requires w != [] && ' ' !in w
    ensures gap == [] ==> (gap + (w + rest))[0] != ' '
  {
    assert (w + rest)[0] == w[0] && w[0] in w;
  }

  /** Between two tokens there is a space. */
  lemma GapAfter(s: CString, n: nat, g: seq<CString>)
    requires n == WordLength(s) && 0 < n && Apart(g, Words(s[n..])) && Spread(g, Words(s[n..])) == s[n..]
    ensures Words(s[n..]) != [] ==> g[0] != []
  {
    var tokens := Words(s[n..]);
    if tokens != [] {
      StartsWithToken(g[0], tokens[0], Spread(g[1..], tokens[1..]));
      assert s[n..] == g[0] + (tokens[0] + Spread(g[1..], tokens[1..]));
    }
  }

  /** Every token is a word. */
  lemma {:induction false} WordsAreWords(s: CString)
    ensures forall i :: 0 <= i < |Words(s)| ==> IsWord(Words(s)[i])
    decreases |s|
  {
    if s != [] {
      if s[0] == ' ' {
        WordsAreWords(s[1..]);
      } else {
        WordsAreWords(s[WordLength(s)..]);
      }
    }
  }

  /** Where the token that starts at `pos` ends. */
  method WordEnd(msg: CString, pos: nat) returns (end: nat)
    requires pos < |msg| && msg[pos] != ' '
    ensures pos < end <= |msg| && end == pos + WordLength(msg[pos..])
  {
    end := pos;
    while end < |msg| && msg[end] != ' '
      invariant pos <= end <= |msg|
      invariant forall i :: pos <= i < end ==> msg[i] != ' '
    {
      end := end + 1;
    }
    FirstWord(msg[pos..], msg[pos..end]);
  }

  lemma Slices(msg: CString, pos: nat, n: nat)
    requires pos + n <= |msg|
    ensures msg[pos..][..n] == msg[pos..pos + n] && msg[pos..][n..] == msg[pos + n..]
  {
  }

  lemma WordsStep(msg: CString, pos: nat)
    requires pos < |msg|
    ensures Words(msg[pos..]) ==
      if msg[pos] == ' ' then Words(msg[pos + 1..])
      else var end := pos + WordLength(msg[pos..]); [msg[pos..end]] + Words(msg[end..])
  {
    var rest := msg[pos..];
    var n := WordLength(rest);
    hide WordLength;
    Slices(msg, pos, 1);
    Slices(msg, pos, n);
  }

  method SplitToken(msg: CString) returns (tokens: seq<CString>)
    ensures tokens == Words(msg)
  {
    hide Words, WordLength;
    tokens := [];
    var pos := 0;
    assert msg[pos..] == msg;
    while pos < |msg|
      invariant 0 <= pos <= |msg|
      invariant tokens + Words(msg[pos..]) == Words(msg)
    {
      WordsStep(msg, pos);
      if msg[pos] == ' ' {
        pos := pos + 1;
      } else {
        var end := WordEnd(msg, pos);
        tokens := tokens + [msg[pos..end]];
        pos := end;
      }
    }
    NoWords(msg[pos..]);
  }

  lemma NoWords(s: CString)
    requires s == []
    ensures Words(s) == []
  {
  }
}
