/**
 * The command tokenizer shared by the four programs: it splits a
 * NUL-terminated character buffer into its maximal runs of non-whitespace
 * characters, in place. Every whitespace character it scans is overwritten
 * with NUL, so that each token, read as a C string from its first
 * character, is exactly its run; each `char *` of the tokens array is an index into the
 * buffer.
 *
 * Three variants exist in the sources: pa0.c's nested-loop version,
 * pa1.c's single loop with a token_started flag, and the pa2.c / pa3.c
 * copy of that loop followed by a pass that drops everything from the
 * first "//" or "#" token on.
 */
module Tokenizer {

  /** MAX_NR_TOKENS in pa0.c, pa1.c and pa2.c (pa3.c passes a 10-entry array). */
  const MAX_NR_TOKENS: nat := 32

  /** A `char *` into the command buffer: NULL or the index of a character. */
  datatype CharPtr = Null | Ptr(index: nat)

  /** `isspace` in the C locale. */
  predicate IsSpace(c: char)
  {
    c == ' ' || c == '\t' || c == '\n' || c == '\U{000B}' || c == '\U{000C}' || c == '\r'
  }

  // ---------------------------------------------------------------------
  // C strings.
  // ---------------------------------------------------------------------

  /** `strlen`: the index of the first NUL. */
  function StrLen(buf: seq<char>): (n: nat)
    requires '\0' in buf
    ensures n < |buf| && buf[n] == '\0'
    ensures forall k :: 0 <= k < n ==> buf[k] != '\0'
  {
    if buf[0] == '\0' then 0 else 1 + StrLen(buf[1..])
  }

  /** The characters of the C string held in `buf`, without its terminator. */
  function Content(buf: seq<char>): (s: seq<char>)
    requires '\0' in buf
    ensures '\0' !in s && |s| < |buf| && buf[|s|] == '\0' && s == buf[..|s|]
  {
    buf[..StrLen(buf)]
  }

  /** The C string that starts at index `k` of `buf`. */
  function CString(buf: seq<char>, k: nat): (str: string)
    requires k <= |buf| && '\0' in buf[k..]
    ensures '\0' !in str && k + |str| < |buf| && buf[k + |str|] == '\0' && str == buf[k..k + |str|]
    decreases |buf| - k
  {
    if buf[k] == '\0' then [] else [buf[k]] + CString(buf, k + 1)
  }

  /** `strmatch` in pa2.c and pa3.c: equal lengths and equal characters. */
  function StrMatch(str: string, pattern: string): (r: bool)
    ensures r <==> str == pattern
  {
    |str| == |pattern| && str[..|pattern|] == pattern
  }

  // ---------------------------------------------------------------------
  // Runs of non-whitespace characters.
  // ---------------------------------------------------------------------

  /** A token starts at k: a non-space character at the front or after a space. */
  predicate IsTokenStart(s: seq<char>, k: nat)
    requires k < |s|
  {
    !IsSpace(s[k]) && (k == 0 || IsSpace(s[k - 1]))
  }

  /** The token starts among the first i characters of s, left to right. */
  function StartsBefore(s: seq<char>, i: nat): seq<nat>
    requires i <= |s|
  {
    if i == 0 then []
    else StartsBefore(s, i - 1) + (if IsTokenStart(s, i - 1) then [i - 1] else [])
  }

  /**
   * StartsBefore lists exactly the token starts below i, each once, in
   * increasing order.
   */
  lemma {:induction false} StartsBeforeCharacterised(s: seq<char>, i: nat)
    requires i <= |s|
    ensures forall j :: 0 <= j < |StartsBefore(s, i)| ==>
      StartsBefore(s, i)[j] < i && IsTokenStart(s, StartsBefore(s, i)[j])
    ensures forall k :: 0 <= k < i && IsTokenStart(s, k) ==> k in StartsBefore(s, i)
    ensures forall j, j' :: 0 <= j < j' < |StartsBefore(s, i)| ==> StartsBefore(s, i)[j] < StartsBefore(s, i)[j']
  {
    if i > 0 {
      StartsBeforeCharacterised(s, i - 1);
    }
  }

  /** Where each token of `s` starts, left to right: one entry per maximal run. */
  function TokenStarts(s: seq<char>): (r: seq<nat>)
    ensures forall j :: 0 <= j < |r| ==> r[j] < |s| && IsTokenStart(s, r[j])
    ensures forall k :: 0 <= k < |s| && IsTokenStart(s, k) ==> k in r
    ensures forall j, j' :: 0 <= j < j' < |r| ==> r[j] < r[j']
  {
    StartsBeforeCharacterised(s, |s|);
    StartsBefore(s, |s|)
  }

  /** The end (exclusive) of the run of non-space characters from k. */
  function RunEnd(s: seq<char>, k: nat): (e: nat)
    requires k <= |s|
    ensures k <= e <= |s| && (e == |s| || IsSpace(s[e]))
    ensures forall j :: k <= j < e ==> !IsSpace(s[j])
    decreases |s| - k
  {
    if k == |s| || IsSpace(s[k]) then k else RunEnd(s, k + 1)
  }

  /** The text of the token starting at k. */
  function TokenText(s: seq<char>, k: nat): string
    requires k <= |s|
  {
    s[k..RunEnd(s, k)]
  }

  /** What a scan leaves in place of c: NUL for whitespace, c itself otherwise. */
  function ScrubChar(c: char): char
  {
    if IsSpace(c) then '\0' else c
  }

  /** The buffer contents after a full scan: every whitespace character is NUL. */
  function Scrub(s: seq<char>): (r: seq<char>)
    ensures |r| == |s| && forall k :: 0 <= k < |s| ==> r[k] == ScrubChar(s[k])
  {
    seq(|s|, k requires 0 <= k < |s| => ScrubChar(s[k]))
  }

  /**
   * The buffer `a` part way through a scan of the command `s` held in
   * `buf`: the first i characters are scrubbed, the rest are as they were.
   */
  ghost predicate Scanned(a: seq<char>, buf: seq<char>, s: seq<char>, i: nat)
  {
    && '\0' in buf && s == Content(buf) && i <= |s| && |a| == |buf|
    && (forall k :: 0 <= k < i ==> a[k] == ScrubChar(s[k]))
    && (forall k :: i <= k < |a| ==> a[k] == buf[k])
  }

  /** Scanning one more character: the scan sees s[i], then scrubs it. */
  lemma ScanStep(a: seq<char>, buf: seq<char>, s: seq<char>, i: nat)
    requires Scanned(a, buf, s, i)
    ensures i < |a| && a[i] == if i < |s| then s[i] else '\0'
    ensures i < |s| ==> Scanned(a[i := ScrubChar(s[i])], buf, s, i + 1)
    ensures i < |s| && !IsSpace(s[i]) ==> Scanned(a, buf, s, i + 1)
  {
    if i < |s| {
      assert buf[i] == s[i];
      assert a[i := ScrubChar(s[i])][i] == ScrubChar(s[i]);
    }
  }

  /** A finished scan leaves the scrubbed command followed by the rest of the buffer. */
  lemma ScanDone(a: seq<char>, buf: seq<char>, s: seq<char>)
    requires Scanned(a, buf, s, |s|)
    ensures a == Scrub(s) + buf[|s|..]
  {
  }

  lemma {:induction false} StartsBeforePrefix(s: seq<char>, i: nat, j: nat)
    requires i <= j <= |s|
    ensures StartsBefore(s, i) <= StartsBefore(s, j)
    decreases j - i
  {
    if i < j {
      StartsBeforePrefix(s, i, j - 1);
    }
  }

  /** A command has no token exactly when it is empty or all whitespace. */
  lemma NoTokensIffBlank(s: seq<char>)
    ensures TokenStarts(s) == [] <==> forall k :: 0 <= k < |s| ==> IsSpace(s[k])
  {
    StartsBeforeCharacterised(s, |s|);
    if exists k :: 0 <= k < |s| && !IsSpace(s[k]) {
      var k := FirstNonSpace(s, 0);
      assert IsTokenStart(s, k);
      assert k in TokenStarts(s);
    }
    if TokenStarts(s) != [] {
      assert IsTokenStart(s, TokenStarts(s)[0]);
    }
  }

  /** The first non-space character at or after i, given that one exists. */
  lemma {:induction false} FirstNonSpace(s: seq<char>, i: nat) returns (k: nat)
    requires i <= |s|
    requires exists k :: i <= k < |s| && !IsSpace(s[k])
    requires forall j :: 0 <= j < i ==> IsSpace(s[j])
    ensures i <= k < |s| && !IsSpace(s[k])
    ensures forall j :: 0 <= j < k ==> IsSpace(s[j])
    decreases |s| - i
  {
    if IsSpace(s[i]) {
      k := FirstNonSpace(s, i + 1);
    } else {
      k := i;
    }
  }

  /** cmd holds the command s with its whitespace scrubbed, then a NUL. */
  predicate ScrubbedBuffer(cmd: seq<char>, s: seq<char>)
  {
    |s| < |cmd| && cmd[|s|] == '\0' && forall j :: 0 <= j < |s| ==> cmd[j] == ScrubChar(s[j])
  }

  /**
   * Once the buffer is scrubbed, the C string at a token start is exactly
   * the token's run of characters.
   */
  lemma {:induction false} ScrubbedTokenText(cmd: seq<char>, s: seq<char>, k: nat)
    requires '\0' !in s && ScrubbedBuffer(cmd, s) && k <= |s|
    ensures k < |cmd| && '\0' in cmd[k..]
    ensures CString(cmd, k) == TokenText(s, k)
    decreases |s| - k
  {
    assert cmd[k..][|s| - k] == '\0';
    if k < |s| && !IsSpace(s[k]) {
      assert cmd[k] == s[k];
      ScrubbedTokenText(cmd, s, k + 1);
      assert RunEnd(s, k) == RunEnd(s, k + 1);
      assert TokenText(s, k) == [s[k]] + TokenText(s, k + 1);
    } else {
      assert RunEnd(s, k) == k;
    }
  }

  // ---------------------------------------------------------------------
  // pa0.c: parse_command with nested loops.
  // ---------------------------------------------------------------------

  /** The command ends in whitespace, as a line read by fgets ends in '\n'. */
  predicate EndsInSpace(s: seq<char>)
  {
    s == [] || IsSpace(s[|s| - 1])
  }

  /**
   * pa0.c's parse_command. The scan of a token stops only at whitespace,
   * so the last token must be followed by whitespace before the NUL.
   */
  method ParseCommandNested(command: array<char>, tokens: array<CharPtr>) returns (nrTokens: nat, r: int)
    requires '\0' in command[..]
    requires EndsInSpace(Content(command[..]))
    requires |TokenStarts(Content(command[..]))| <= tokens.Length
    modifies command, tokens
    ensures r == 0
    ensures var s := Content(old(command[..]));
      && nrTokens == |TokenStarts(s)|
      && (forall j :: 0 <= j < nrTokens ==> tokens[j] == Ptr(TokenStarts(s)[j]))
      && (forall j :: nrTokens <= j < tokens.Length ==> tokens[j] == old(tokens[j]))
      && command[..] == Scrub(s) + old(command[..])[|s|..]
  {
    ghost var buf := command[..];
    ghost var s := Content(buf);
    ghost var n := |s|;
    ghost var found: seq<nat> := [];
    var curr := 0;
    nrTokens := 0;
    ScanStep(command[..], buf, s, 0);
    while command[curr] != '\0'
      invariant Scanned(command[..], buf, s, curr)
      invariant command[curr] == if curr < n then s[curr] else '\0'
      invariant curr < n && !IsSpace(s[curr]) ==> IsTokenStart(s, curr)
      invariant found == StartsBefore(s, curr) && nrTokens == |found| <= tokens.Length
      invariant forall j :: 0 <= j < nrTokens ==> tokens[j] == Ptr(found[j])
      invariant forall j :: nrTokens <= j < tokens.Length ==> tokens[j] == old(tokens[j])
      decreases n - curr
    {
      if IsSpace(command[curr]) {
        curr := ScrubSpaces(command, curr, buf, s);
      } else {
        StartsBeforePrefix(s, curr + 1, n);
        found := found + [curr];
        nrTokens := nrTokens + 1;
        tokens[nrTokens - 1] := Ptr(curr);
        curr := SkipToken(command, curr, buf, s);
      }
    }
    ScanDone(command[..], buf, s);
    r := 0;
  }

  /**
   * The whitespace branch of pa0.c's outer loop: overwrite the run of
   * whitespace at `start` with NULs and stop at the next non-space.
   */
  method ScrubSpaces(command: array<char>, start: nat, ghost buf: seq<char>, ghost s: seq<char>) returns (curr: nat)
    requires Scanned(command[..], buf, s, start) && start < |s| && IsSpace(s[start])
    modifies command
    ensures start < curr <= |s| && Scanned(command[..], buf, s, curr)
    ensures command[curr] == if curr < |s| then s[curr] else '\0'
    ensures curr < |s| ==> IsTokenStart(s, curr)
    ensures StartsBefore(s, curr) == StartsBefore(s, start)
  {
    ScanStep(command[..], buf, s, start);
    command[start] := '\0';
    curr := start + 1;
    ScanStep(command[..], buf, s, curr);
    while IsSpace(command[curr])
      invariant start < curr <= |s| && IsSpace(s[curr - 1])
      invariant Scanned(command[..], buf, s, curr)
      invariant command[curr] == if curr < |s| then s[curr] else '\0'
      invariant StartsBefore(s, curr) == StartsBefore(s, start)
      decreases |s| - curr
    {
      ScanStep(command[..], buf, s, curr);
      command[curr] := '\0';
      curr := curr + 1;
      ScanStep(command[..], buf, s, curr);
    }
  }

  /**
   * The token branch of pa0.c's outer loop, after the token is recorded:
   * step over the rest of the run. Only whitespace stops it, which is why
   * the command must end in whitespace.
   */
  method SkipToken(command: array<char>, start: nat, ghost buf: seq<char>, ghost s: seq<char>) returns (curr: nat)
    requires Scanned(command[..], buf, s, start) && start < |s| && IsTokenStart(s, start)
    requires EndsInSpace(s)
    ensures curr == RunEnd(s, start) < |s| && Scanned(command[..], buf, s, curr)
    ensures command[curr] == s[curr]
    ensures StartsBefore(s, curr) == StartsBefore(s, start) + [start]
  {
    ghost var end := RunEnd(s, start);
    assert IsSpace(s[|s| - 1]) && start <= |s| - 1;
    assert end < |s|;
    ScanStep(command[..], buf, s, start);
    curr := start + 1;
    ScanStep(command[..], buf, s, curr);
    while !IsSpace(command[curr])
      invariant start < curr <= end
      invariant Scanned(command[..], buf, s, curr)
      invariant command[curr] == s[curr]
      invariant StartsBefore(s, curr) == StartsBefore(s, start) + [start]
      decreases end - curr
    {
      ScanStep(command[..], buf, s, curr);
      curr := curr + 1;
      ScanStep(command[..], buf, s, curr);
    }
  }

  // ---------------------------------------------------------------------
  // pa1.c: parse_command with a token_started flag.
  // ---------------------------------------------------------------------

  /** pa1.c's parse_command (and the first loop of the pa2.c / pa3.c copies). */
  method ParseCommand(command: array<char>, tokens: array<CharPtr>) returns (nrTokens: nat, r: int)
    requires '\0' in command[..]
    requires |TokenStarts(Content(command[..]))| <= tokens.Length
    modifies command, tokens
    ensures r == 0
    ensures var s := Content(old(command[..]));
      && nrTokens == |TokenStarts(s)|
      && (forall j :: 0 <= j < nrTokens ==> tokens[j] == Ptr(TokenStarts(s)[j]))
      && (forall j :: nrTokens <= j < tokens.Length ==> tokens[j] == old(tokens[j]))
      && command[..] == Scrub(s) + old(command[..])[|s|..]
  {
    ghost var buf := command[..];
    ghost var s := Content(buf);
    ghost var n := |s|;
    ghost var found: seq<nat> := [];
    var curr := 0;
    var tokenStarted := false;
    nrTokens := 0;
    ScanStep(command[..], buf, s, 0);
    while command[curr] != '\0'
      invariant Scanned(command[..], buf, s, curr)
      invariant command[curr] == if curr < n then s[curr] else '\0'
      invariant tokenStarted <==> curr > 0 && !IsSpace(s[curr - 1])
      invariant found == StartsBefore(s, curr) && nrTokens == |found| <= tokens.Length
      invariant forall j :: 0 <= j < nrTokens ==> tokens[j] == Ptr(found[j])
      invariant forall j :: nrTokens <= j < tokens.Length ==> tokens[j] == old(tokens[j])
      decreases n - curr
    {
      ScanStep(command[..], buf, s, curr);
      if IsSpace(command[curr]) {
        command[curr] := '\0';
        tokenStarted := false;
      } else if !tokenStarted {
        StartsBeforePrefix(s, curr + 1, n);
        found := found + [curr];
        tokens[nrTokens] := Ptr(curr);
        nrTokens := nrTokens + 1;
        tokenStarted := true;
      }
      curr := curr + 1;
      ScanStep(command[..], buf, s, curr);
    }
    ScanDone(command[..], buf, s);
    r := 0;
  }

  // ---------------------------------------------------------------------
  // pa2.c / pa3.c: __parse_command, which also drops comments.
  // ---------------------------------------------------------------------

  predicate IsCommentMarker(token: string)
  {
    token == "//" || token == "#"
  }

  /** The number of tokens of s before its first comment marker (all of them if none). */
  function TokensBeforeComment(s: seq<char>, j: nat): (c: nat)
    requires j <= |TokenStarts(s)|
    ensures j <= c <= |TokenStarts(s)|
    ensures forall i :: j <= i < c ==> !IsCommentMarker(TokenText(s, TokenStarts(s)[i]))
    ensures c < |TokenStarts(s)| ==> IsCommentMarker(TokenText(s, TokenStarts(s)[c]))
    decreases |TokenStarts(s)| - j
  {
    if j == |TokenStarts(s)| then j
    else if IsCommentMarker(TokenText(s, TokenStarts(s)[j])) then j
    else TokensBeforeComment(s, j + 1)
  }

  /** pa2.c's and pa3.c's __parse_command. */
  method ParseCommandStripComments(command: array<char>, tokens: array<CharPtr>) returns (nrTokens: nat, r: int)
    requires '\0' in command[..]
    requires |TokenStarts(Content(command[..]))| <= tokens.Length
    modifies command, tokens
    ensures r == 0
    ensures var s := Content(old(command[..]));
      && nrTokens == TokensBeforeComment(s, 0)
      && (forall j :: 0 <= j < nrTokens ==> tokens[j] == Ptr(TokenStarts(s)[j]))
      && (nrTokens < |TokenStarts(s)| ==> tokens[nrTokens] == Null)
      && (forall j :: nrTokens < j < |TokenStarts(s)| ==> tokens[j] == Ptr(TokenStarts(s)[j]))
      && (forall j :: |TokenStarts(s)| <= j < tokens.Length ==> tokens[j] == old(tokens[j]))
      && command[..] == Scrub(s) + old(command[..])[|s|..]
  {
    ghost var s := Content(command[..]);
    var found;
    found, r := ParseCommand(command, tokens);
    assert ScrubbedBuffer(command[..], s);
    nrTokens := DropComments(command, tokens, found, s);
  }

  /**
   * The second loop of __parse_command: the first token that reads "//" or
   * "#" becomes NULL and the count stops there.
   */
  method DropComments(command: array<char>, tokens: array<CharPtr>, found: nat, ghost s: seq<char>)
    returns (nrTokens: nat)
    requires '\0' !in s && ScrubbedBuffer(command[..], s)
    requires found == |TokenStarts(s)| <= tokens.Length
    requires forall j :: 0 <= j < found ==> tokens[j] == Ptr(TokenStarts(s)[j])
    modifies tokens
    ensures nrTokens == TokensBeforeComment(s, 0)
    ensures tokens[..] == if nrTokens < found then old(tokens[..])[nrTokens := Null] else old(tokens[..])
  {
    ghost var starts := TokenStarts(s);
    ghost var cut := TokensBeforeComment(s, 0);
    nrTokens := found;
    var i := 0;
    while i < nrTokens
      invariant 0 <= i <= nrTokens + 1 && nrTokens <= found
      invariant i <= nrTokens ==> nrTokens == found && cut == TokensBeforeComment(s, i)
      invariant i > nrTokens ==> nrTokens == cut < found
      invariant tokens[..] == if i > nrTokens then old(tokens[..])[nrTokens := Null] else old(tokens[..])
      decreases nrTokens + 1 - i
    {
      ScrubbedTokenText(command[..], s, starts[i]);
      var text := CString(command[..], tokens[i].index);
      if StrMatch(text, "//") || StrMatch(text, "#") {
        nrTokens := i;
        tokens[i] := Null;
      }
      i := i + 1;
    }
  }

  // ---------------------------------------------------------------------
  // Words joined by whitespace tokenize back into those words.
  // ---------------------------------------------------------------------

  /** Every index of r moved up by d. */
  function Shift(r: seq<nat>, d: nat): (t: seq<nat>)
    ensures |t| == |r| && forall j :: 0 <= j < |r| ==> t[j] == r[j] + d
  {
    seq(|r|, j requires 0 <= j < |r| => r[j] + d)
  }

  /** StartsBefore(s, i) looks only at the first i characters. */
  lemma {:induction false} StartsBeforeSamePrefix(s: seq<char>, t: seq<char>, i: nat)
    requires i <= |s| && i <= |t| && s[..i] == t[..i]
    ensures StartsBefore(s, i) == StartsBefore(t, i)
  {
    if i > 0 {
      assert s[..i - 1] == t[..i - 1] by {
        assert s[..i - 1] == s[..i][..i - 1] && t[..i - 1] == t[..i][..i - 1];
      }
      assert s[i - 1] == s[..i][i - 1] == t[..i][i - 1] == t[i - 1];
      if i >= 2 {
        assert s[i - 2] == s[..i][i - 2] == t[..i][i - 2] == t[i - 2];
      }
      StartsBeforeSamePrefix(s, t, i - 1);
    }
  }

  /**
   * After a prefix that ends in whitespace, the tokens of the rest start
   * where they would on their own, moved up by the prefix's length.
   */
  lemma {:induction false} StartsBeforeAppend(a: seq<char>, b: seq<char>, j: nat)
    requires EndsInSpace(a) && j <= |b|
    ensures StartsBefore(a + b, |a| + j) == StartsBefore(a, |a|) + Shift(StartsBefore(b, j), |a|)
  {
    if j == 0 {
      assert (a + b)[..|a|] == a[..|a|];
      StartsBeforeSamePrefix(a + b, a, |a|);
    } else {
      StartsBeforeAppend(a, b, j - 1);
      StartsBeforeAppendStep(a, b, j);
    }
  }

  /** One more character of the rest adds its token start, moved up by |a|. */
  lemma StartsBeforeAppendStep(a: seq<char>, b: seq<char>, j: nat)
    requires EndsInSpace(a) && 1 <= j <= |b|
    requires StartsBefore(a + b, |a| + j - 1) == StartsBefore(a, |a|) + Shift(StartsBefore(b, j - 1), |a|)
    ensures StartsBefore(a + b, |a| + j) == StartsBefore(a, |a|) + Shift(StartsBefore(b, j), |a|)
  {
    TokenStartAfter(a, b, j - 1);
    var e := if IsTokenStart(b, j - 1) then [j - 1] else [];
    ShiftAppend(StartsBefore(b, j - 1), e, |a|);
    assert Shift(e, |a|) == if IsTokenStart(b, j - 1) then [|a| + j - 1] else [];
    assert StartsBefore(b, j) == StartsBefore(b, j - 1) + e;
    assert StartsBefore(a + b, |a| + j)
        == StartsBefore(a, |a|) + Shift(StartsBefore(b, j - 1), |a|) + Shift(e, |a|);
  }

  lemma TokenStartAfter(a: seq<char>, b: seq<char>, j: nat)
    requires EndsInSpace(a) && j < |b|
    ensures IsTokenStart(a + b, |a| + j) == IsTokenStart(b, j)
  {
    assert (a + b)[|a| + j] == b[j];
    if j > 0 {
      assert (a + b)[|a| + j - 1] == b[j - 1];
    } else if a != [] {
      assert (a + b)[|a| - 1] == a[|a| - 1];
    }
  }

  lemma ShiftAppend(r: seq<nat>, t: seq<nat>, d: nat)
    ensures Shift(r + t, d) == Shift(r, d) + Shift(t, d)
  {
  }

  /** n blanks. */
  function Blanks(n: nat): (g: string)
    ensures |g| == n && forall k :: 0 <= k < n ==> g[k] == ' '
  {
    seq(n, _ => ' ')
  }

  /** w[i..] holds no whitespace. */
  predicate NoSpaceFrom(w: string, i: nat)
    requires i <= |w|
    decreases |w| - i
  {
    i == |w| || (!IsSpace(w[i]) && NoSpaceFrom(w, i + 1))
  }

  /** A nonempty run of non-whitespace characters. */
  predicate IsWord(w: string)
  {
    w != [] && NoSpaceFrom(w, 0)
  }

  lemma {:induction false} NoSpaceFromChars(w: string, i: nat)
    requires i <= |w| && NoSpaceFrom(w, i)
    ensures forall k :: i <= k < |w| ==> !IsSpace(w[k])
    decreases |w| - i
  {
    if i < |w| {
      NoSpaceFromChars(w, i + 1);
    }
  }

  /**
   * Appending a word and then blanks to a command that ends in whitespace
   * adds exactly one token: it starts right after the old command, runs to
   * the blanks and reads as the word.
   */
  lemma AppendWord(p: string, w: string, n: nat)
    requires EndsInSpace(p) && IsWord(w) && n > 0
    ensures EndsInSpace(p + (w + Blanks(n)))
    ensures TokenStarts(p + (w + Blanks(n))) == TokenStarts(p) + [|p|]
    ensures TokenText(p + (w + Blanks(n)), |p|) == w
  {
    var g := Blanks(n);
    var b := w + g;
    NoSpaceFromChars(w, 0);
    WordThenBlankStarts(w, g, |b|);
    WordThenBlankRunEnd(w, g, 0);
    StartsBeforeAppend(p, b, |b|);
    assert Shift([0], |p|) == [|p|];
    RunEndAppend(p, b, 0);
    assert (p + b)[|p|..|p| + |w|] == w;
    assert (p + b)[|p + b| - 1] == g[n - 1];
  }

  /** Appending after whitespace leaves the text of an earlier token alone. */
  lemma TokenTextPrefix(a: string, b: string, k: nat)
    requires EndsInSpace(a) && k < |a|
    ensures TokenText(a + b, k) == TokenText(a, k)
  {
    RunEndPrefix(a, b, k);
    assert (a + b)[k..RunEnd(a, k)] == a[k..RunEnd(a, k)];
  }

  /** A word followed by whitespace holds one token, at 0 ... */
  lemma {:induction false} WordThenBlankStarts(w: seq<char>, g: seq<char>, i: nat)
    requires w != [] && forall k :: 0 <= k < |w| ==> !IsSpace(w[k])
    requires forall k :: 0 <= k < |g| ==> IsSpace(g[k])
    requires 1 <= i <= |w + g|
    ensures StartsBefore(w + g, i) == [0]
  {
    var s := w + g;
    if i == 1 {
      assert s[0] == w[0];
    } else {
      WordThenBlankStarts(w, g, i - 1);
      if i - 1 < |w| {
        assert s[i - 2] == w[i - 2];
      } else {
        assert s[i - 1] == g[i - 1 - |w|];
      }
    }
  }

  /** ... whose run ends where the whitespace begins. */
  lemma {:induction false} WordThenBlankRunEnd(w: seq<char>, g: seq<char>, k: nat)
    requires forall k :: 0 <= k < |w| ==> !IsSpace(w[k])
    requires g != [] && IsSpace(g[0])
    requires k <= |w|
    ensures RunEnd(w + g, k) == |w|
    decreases |w| - k
  {
    var s := w + g;
    if k < |w| {
      assert s[k] == w[k];
      WordThenBlankRunEnd(w, g, k + 1);
    } else {
      assert s[k] == g[0];
    }
  }

  /** Appending characters after whitespace does not move the end of a run. */
  lemma {:induction false} RunEndPrefix(a: seq<char>, b: seq<char>, k: nat)
    requires EndsInSpace(a) && k < |a|
    ensures RunEnd(a + b, k) == RunEnd(a, k)
    decreases |a| - k
  {
    assert (a + b)[k] == a[k];
    if !IsSpace(a[k]) {
      RunEndPrefix(a, b, k + 1);
    }
  }

  /** A run that starts after a prefix ends where it ends on its own, moved up. */
  lemma {:induction false} RunEndAppend(a: seq<char>, b: seq<char>, k: nat)
    requires k <= |b|
    ensures RunEnd(a + b, |a| + k) == |a| + RunEnd(b, k)
    decreases |b| - k
  {
    if k < |b| {
      assert (a + b)[|a| + k] == b[k];
      if !IsSpace(b[k]) {
        RunEndAppend(a, b, k + 1);
      }
    }
  }

  /** A word and the number of blanks that follow it. */
  datatype Piece = Piece(word: string, gap: nat)

  /** `lead` blanks followed by each piece's word and blanks, in order. */
  function Sentence(lead: nat, pieces: seq<Piece>): (s: string)
    ensures |pieces| > 0 && pieces[|pieces| - 1].gap > 0 ==> EndsInSpace(s)
  {
    if pieces == [] then Blanks(lead)
    else
      var last := pieces[|pieces| - 1];
      Sentence(lead, pieces[..|pieces| - 1]) + (last.word + Blanks(last.gap))
  }

  /** Where each piece's word starts in Sentence(lead, pieces). */
  function WordStarts(lead: nat, pieces: seq<Piece>): (r: seq<nat>)
    ensures |r| == |pieces|
  {
    if pieces == [] then []
    else WordStarts(lead, pieces[..|pieces| - 1]) + [|Sentence(lead, pieces[..|pieces| - 1])|]
  }

  /** The tokens of s, as strings, left to right. */
  function Tokens(s: string): (ts: seq<string>)
    ensures |ts| == |TokenStarts(s)|
  {
    seq(|TokenStarts(s)|, j requires 0 <= j < |TokenStarts(s)| => TokenText(s, TokenStarts(s)[j]))
  }

  /** The words of the pieces, in order. */
  function Words(pieces: seq<Piece>): (ws: seq<string>)
    ensures |ws| == |pieces| && forall j :: 0 <= j < |pieces| ==> ws[j] == pieces[j].word
  {
    if pieces == [] then [] else Words(pieces[..|pieces| - 1]) + [pieces[|pieces| - 1].word]
  }

  predicate WellSpaced(pieces: seq<Piece>)
  {
    forall j :: 0 <= j < |pieces| ==> IsWord(pieces[j].word) && pieces[j].gap > 0
  }

  /** Appending a word and blanks after whitespace appends the word to the tokens. */
  lemma TokensAppendWord(p: string, w: string, n: nat)
    requires EndsInSpace(p) && IsWord(w) && n > 0
    ensures Tokens(p + (w + Blanks(n))) == Tokens(p) + [w]
  {
    var s := p + (w + Blanks(n));
    AppendWord(p, w, n);
    var ts := TokenStarts(p);
    forall j | 0 <= j < |ts|
      ensures Tokens(s)[j] == Tokens(p)[j]
    {
      TokenTextPrefix(p, w + Blanks(n), ts[j]);
    }
  }

  /**
   * Words separated (and followed) by whitespace tokenize back into those
   * words, each starting where it was placed: tokenizing inverts joining.
   */
  lemma {:induction false} SentenceTokens(lead: nat, pieces: seq<Piece>)
    requires WellSpaced(pieces)
    ensures EndsInSpace(Sentence(lead, pieces))
    ensures TokenStarts(Sentence(lead, pieces)) == WordStarts(lead, pieces)
    ensures Tokens(Sentence(lead, pieces)) == Words(pieces)
  {
    var s := Sentence(lead, pieces);
    if pieces == [] {
      NoTokensIffBlank(s);
    } else {
      var init, last := pieces[..|pieces| - 1], pieces[|pieces| - 1];
      assert WellSpaced(init) by {
        forall j | 0 <= j < |init|
          ensures IsWord(init[j].word) && init[j].gap > 0
        {
          assert init[j] == pieces[j];
        }
      }
      SentenceTokens(lead, init);
      AppendWord(Sentence(lead, init), last.word, last.gap);
      TokensAppendWord(Sentence(lead, init), last.word, last.gap);
    }
  }

  // ---------------------------------------------------------------------
  // The example in pa0.c's comment.
  // ---------------------------------------------------------------------

  /** The command used as the example in pa0.c: "  Hello world   Ajou   University!!  ". */
  const EXAMPLE_PIECES: seq<Piece> :=
    [Piece("Hello", 1), Piece("world", 3), Piece("Ajou", 3), Piece("University!!", 2)]

  const EXAMPLE: string := Sentence(2, EXAMPLE_PIECES)

  lemma ExampleWordStarts()
    ensures WordStarts(2, EXAMPLE_PIECES) == [2, 8, 16, 23]
  {
    var ps := EXAMPLE_PIECES;
    assert ps[..0] == [] && ps[..1][..0] == [];
    assert |Sentence(2, ps[..0])| == 2;
    assert ps[..2][..1] == ps[..1] && ps[..3][..2] == ps[..2] && ps[..4][..3] == ps[..3] && ps[..4] == ps;
    assert |Sentence(2, ps[..1])| == 8;
    assert |Sentence(2, ps[..2])| == 16;
    assert |Sentence(2, ps[..3])| == 23;
    assert WordStarts(2, ps[..1]) == [2];
    assert WordStarts(2, ps[..2]) == [2, 8];
    assert WordStarts(2, ps[..3]) == [2, 8, 16];
  }

  lemma ExampleWellSpaced()
    ensures WellSpaced(EXAMPLE_PIECES)
  {
    ExampleIsWord();
    var ps := EXAMPLE_PIECES;
    assert ps[0].word == "Hello" && ps[1].word == "world" && ps[2].word == "Ajou" && ps[3].word == "University!!";
  }

  lemma ExampleIsWord()
    ensures IsWord("Hello") && IsWord("world") && IsWord("Ajou") && IsWord("University!!")
  {
  }

  lemma ExampleWords()
    ensures Words(EXAMPLE_PIECES) == ["Hello", "world", "Ajou", "University!!"]
  {
  }

  /**
   * pa0.c's example command splits into the four tokens "Hello", "world",
   * "Ajou" and "University!!", starting at indices 2, 8, 16 and 23.
   */
  lemma ExampleTokens()
    ensures TokenStarts(EXAMPLE) == [2, 8, 16, 23]
    ensures Tokens(EXAMPLE) == ["Hello", "world", "Ajou", "University!!"]
  {
    ExampleWellSpaced();
    ExampleWords();
    ExampleWordStarts();
    SentenceTokens(2, EXAMPLE_PIECES);
  }
}
