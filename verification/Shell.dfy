/** The line editor, history and in-place tokeniser of shell.c. */
module Shell {
  import opened CString

  const BUFFER_SIZE: nat := 256
  const MAX_ARGS: nat := 8
  const HISTORY_SIZE: nat := 10

  // ---------------------------------------------------------------- tokens

  /** The first index of `c`, or |s|. */
  function IndexOf(s: string, c: char): (i: nat)
    ensures i <= |s| && (i < |s| ==> s[i] == c)
    ensures forall k :: 0 <= k < i ==> s[k] != c
  {
    if s == "" || s[0] == c then 0 else 1 + IndexOf(s[1..], c)
  }

  lemma IndexOfUnique(s: string, c: char, i: nat)
    requires i <= |s| && (i < |s| ==> s[i] == c) && forall k :: 0 <= k < i ==> s[k] != c
    ensures IndexOf(s, c) == i
  {
  }

  function Before(s: string, c: char): string {
    s[..IndexOf(s, c)]
  }

  function After(s: string, c: char): (r: string)
    ensures s != "" ==> |r| < |s|
    ensures s == "" ==> r == ""
  {
    if IndexOf(s, c) < |s| then s[IndexOf(s, c) + 1..] else ""
  }

  function SkipSpaces(s: string): (r: string)
    ensures |r| <= |s| && (r != "" ==> r[0] != ' ')
  {
    if s != "" && s[0] == ' ' then SkipSpaces(s[1..]) else s
  }

  /** What a token opens with decides what closes it. */
  function TokenBody(t: string): string
    requires t != ""
  {
    if t[0] == '"' then Before(t[1..], '"') else Before(t, ' ')
  }

  function TokenRest(t: string): (r: string)
    requires t != ""
    ensures |r| < |t|
  {
    if t[0] == '"' then After(t[1..], '"') else After(t, ' ')
  }

  /** The first `n` non-empty arguments of a line. */
  function Tokens(s: string, n: nat): (ts: seq<string>)
    ensures |ts| <= n && forall k :: 0 <= k < |ts| ==> ts[k] != ""
    decreases |s|
  {
    var t := SkipSpaces(s);
    if t == "" || n == 0 then []
    else if TokenBody(t) == "" then Tokens(TokenRest(t), n)
    else [TokenBody(t)] + Tokens(TokenRest(t), n - 1)
  }

  /** An argument as a user types it: after `gap` blanks, in double quotes or bare. */
  datatype Arg = Arg(text: string, quoted: bool, gap: nat)

  function Blanks(n: nat): string {
    if n == 0 then "" else " " + Blanks(n - 1)
  }

  function Typed(a: Arg): string {
    if a.quoted then "\"" + a.text + "\"" else a.text
  }

  function Line(args: seq<Arg>): string {
    if args == [] then "" else Blanks(args[0].gap) + (Typed(args[0]) + Line(args[1..]))
  }

  function Texts(args: seq<Arg>): (ts: seq<string>)
    ensures |ts| == |args|
  {
    if args == [] then [] else [args[0].text] + Texts(args[1..])
  }

  /** Quoted arguments hold no quote; bare ones hold no blank and do not begin with a quote. */
  predicate Typable(a: Arg) {
    a.text != "" && if a.quoted then '"' !in a.text else ' ' !in a.text && a.text[0] != '"'
  }

  /** Every argument but the first is set off by blanks. */
  predicate SetOff(args: seq<Arg>) {
    forall k :: 0 <= k < |args| ==> Typable(args[k]) && (k > 0 ==> args[k].gap > 0)
  }

  lemma QuotedFirst(a: string, tail: string, n: nat)
    requires n > 0 && a != "" && '"' !in a
    ensures Tokens("\"" + a + "\"" + tail, n) == [a] + Tokens(tail, n - 1)
  {
    var s := "\"" + a + "\"" + tail;
    var body := s[1..];
    assert body == a + "\"" + tail;
    IndexOfUnique(body, '"', |a|);
    assert Before(body, '"') == a && After(body, '"') == tail;
    assert SkipSpaces(s) == s;
  }

  lemma BareFirst(a: string, tail: string, n: nat)
    requires n > 0 && a != "" && ' ' !in a && a[0] != '"' && (tail == "" || tail[0] == ' ')
    ensures Tokens(a + tail, n) == [a] + Tokens(tail, n - 1)
  {
    var s := a + tail;
    IndexOfUnique(s, ' ', |a|);
    assert Before(s, ' ') == a;
    assert SkipSpaces(s) == s;
    if tail == "" {
      assert After(s, ' ') == tail;
    } else {
      assert After(s, ' ') == tail[1..];
      SkipSpacesFirst(tail, n - 1);
    }
  }

  lemma SkipSpacesFirst(s: string, n: nat)
    requires s != "" && s[0] == ' '
    ensures Tokens(s, n) == Tokens(s[1..], n)
  {
  }

  lemma {:induction false} BlanksSkipped(gap: nat, s: string, n: nat)
    ensures Tokens(Blanks(gap) + s, n) == Tokens(s, n)
  {
    if gap == 0 {
      assert "" + s == s;
    } else {
      var t := Blanks(gap) + s;
      assert t[1..] == Blanks(gap - 1) + s;
      SkipSpacesFirst(t, n);
      BlanksSkipped(gap - 1, s, n);
    }
  }

  lemma LineStart(args: seq<Arg>)
    requires args != [] ==> args[0].gap > 0
    ensures Line(args) == "" || Line(args)[0] == ' '
  {
  }

  lemma FirstOfLine(args: seq<Arg>, n: nat)
    requires args != [] && n > 0 && Typable(args[0]) && (|args| > 1 ==> args[1].gap > 0)
    ensures Tokens(Line(args), n) == [args[0].text] + Tokens(Line(args[1..]), n - 1)
  {
    hide Tokens, Blanks, Line;
    var a, tail := args[0], Line(args[1..]);
    LineSplit(args);
    BlanksSkipped(a.gap, Typed(a) + tail, n);
    LineStart(args[1..]);
    if a.quoted {
      QuotedFirst(a.text, tail, n);
    } else {
      BareFirst(a.text, tail, n);
    }
  }

  lemma LineSplit(args: seq<Arg>)
    requires args != []
    ensures Line(args) == Blanks(args[0].gap) + (Typed(args[0]) + Line(args[1..]))
  {
  }

  lemma TokensOfNothing(s: string, n: nat)
    requires s == "" || n == 0
    ensures Tokens(s, n) == []
  {
  }

  /** Tokenising inverts typing: the first `n` arguments come back, however each was typed. */
  lemma {:induction false} TokensOfLine(args: seq<Arg>, n: nat)
    requires SetOff(args)
    ensures Tokens(Line(args), n) == Texts(args[..if |args| < n then |args| else n])
    decreases |args|
  {
    hide Tokens, Typable;
    var few := args[..if |args| < n then |args| else n];
    if args == [] || n == 0 {
      assert few == [];
      TokensOfNothing(Line(args), n);
    } else {
      TokensOfLine(args[1..], n - 1);
      FirstOfLine(args, n);
      assert few[1..] == args[1..][..if |args| - 1 < n - 1 then |args| - 1 else n - 1];
    }
  }

  // ---------------------------------------------------------------- history

  /** The history after one more command: empty lines and immediate repeats leave it alone, and ten are kept. */
  function Remember(h: seq<string>, command: string): (r: seq<string>)
    ensures |h| <= HISTORY_SIZE ==> |r| <= HISTORY_SIZE
  {
    if command == "" || (h != [] && h[|h| - 1] == command) then h
    else (if |h| >= HISTORY_SIZE then h[1..] else h) + [command]
  }

  function RememberAll(commands: seq<string>): (h: seq<string>)
    ensures |h| <= HISTORY_SIZE
  {
    if commands == [] then [] else Remember(RememberAll(commands[..|commands| - 1]), commands[|commands| - 1])
  }

  /** Every command worth keeping, without a bound. */
  function Distinct(commands: seq<string>): (h: seq<string>)
    ensures "" !in h
  {
    if commands == [] then []
    else
      var h, c := Distinct(commands[..|commands| - 1]), commands[|commands| - 1];
      if c == "" || (h != [] && h[|h| - 1] == c) then h else h + [c]
  }

  function LastOf(h: seq<string>, n: nat): seq<string> {
    if |h| <= n then h else h[|h| - n..]
  }

  /** The bounded history is always the end of the unbounded one. */
  lemma {:induction false} HistoryIsLastTen(commands: seq<string>)
    ensures RememberAll(commands) == LastOf(Distinct(commands), 10)
  {
    if commands != [] {
      HistoryIsLastTen(commands[..|commands| - 1]);
    }
  }

  // ---------------------------------------------------------------- line editing

  /** The edited line after one more key. */
  function Edit(line: string, key: char): string {
    if key == '\U{8}' then (if line == "" then "" else line[..|line| - 1])
    else if |line| < BUFFER_SIZE - 1 && ' ' <= key <= '~' then line + [key]
    else line
  }

  function EditAll(keys: string): (line: string)
    ensures |line| <= 255 && NUL !in line
  {
    if keys == "" then "" else Edit(EditAll(keys[..|keys| - 1]), keys[|keys| - 1])
  }

  // ---------------------------------------------------------------- the shell

  predicate Printable(c: char) {
    32 <= c as int <= 126
  }

  lemma EditAllMore(keys: string, c: char)
    ensures EditAll(keys + [c]) == Edit(EditAll(keys), c)
  {
    assert (keys + [c])[..|keys|] == keys;
  }

  /** Up to 255 printable keys come back as they were typed. */
  lemma {:induction false} TypedComesBack(keys: string)
    requires |keys| <= 255 && forall k :: 0 <= k < |keys| ==> Printable(keys[k])
    ensures EditAll(keys) == keys
    decreases |keys|
  {
    if keys != "" {
      var n := |keys| - 1;
      TypedComesBack(keys[..n]);
      assert keys == keys[..n] + [keys[n]];
    }
  }

  /** A backspace takes away exactly the last character, if there is one. */
  lemma BackspaceTakesLast(keys: string)
    ensures var line := EditAll(keys);
      EditAll(keys + "\U{8}") == if line == "" then "" else line[..|line| - 1]
  {
    EditAllMore(keys, '\U{8}');
  }

  /** A printable key is added at the end as long as the line is shorter than 255; every other key does nothing. */
  lemma KeyAdds(keys: string, c: char)
    requires c != '\U{8}'
    ensures EditAll(keys + [c])
      == if Printable(c) && |EditAll(keys)| < 255 then EditAll(keys) + [c] else EditAll(keys)
  {
    EditAllMore(keys, c);
  }

  class Console {
    const shellBuffer: array<char>
    const parseBuffer: array<char>
    const shellHistory: array<string>
    var historyCount: nat
    var historyCurrent: int

    ghost predicate Valid()
      reads this, shellHistory
    {
      && shellBuffer.Length == BUFFER_SIZE && parseBuffer.Length == BUFFER_SIZE && shellBuffer != parseBuffer
      && shellHistory.Length == HISTORY_SIZE && historyCount <= HISTORY_SIZE
    }

    function History(): seq<string>
      requires historyCount <= shellHistory.Length
      reads this, shellHistory
    {
      shellHistory[..historyCount]
    }

    constructor ()
      ensures Valid() && History() == []
      ensures fresh(shellBuffer) && fresh(parseBuffer) && fresh(shellHistory)
    {
      shellBuffer := new char[BUFFER_SIZE](i => NUL);
      parseBuffer := new char[BUFFER_SIZE](i => NUL);
      shellHistory := new string[HISTORY_SIZE](i => "");
      historyCount := 0;
      historyCurrent := -1;
    }

    method ShiftHistory()
      requires shellHistory.Length == HISTORY_SIZE
      modifies shellHistory
      ensures shellHistory[..HISTORY_SIZE - 1] == old(shellHistory[1..])
    {
      for i := 0 to HISTORY_SIZE - 1
        invariant forall k :: 0 <= k < i ==> shellHistory[k] == old(shellHistory[k + 1])
        invariant forall k :: i <= k < HISTORY_SIZE ==> shellHistory[k] == old(shellHistory[k])
      {
        shellHistory[i] := shellHistory[i + 1];
      }
    }

    method AddToHistory(command: string)
      requires Valid()
      modifies this`historyCount, this`historyCurrent, shellHistory
      ensures Valid() && History() == Remember(old(History()), command)
    {
      if |command| == 0 { return; }
      if historyCount > 0 && shellHistory[historyCount - 1] == command { return; }
      ghost var kept := History();
      if historyCount >= HISTORY_SIZE {
        kept := kept[1..];
        ShiftHistory();
        historyCount := historyCount - 1;
      }
      assert shellHistory[..historyCount] == kept;
      shellHistory[historyCount] := command;
      historyCount := historyCount + 1;
      assert shellHistory[..historyCount] == kept + [command];
      historyCurrent := historyCount;
    }

    /** Reads keys up to the first newline; `keys` is what the keyboard delivers. */
    method ReadLine(keys: string) returns (line: string, used: nat)
      requires Valid() && '\n' in keys
      modifies this`historyCount, this`historyCurrent, shellBuffer, shellHistory
      ensures Valid()
      ensures used == IndexOf(keys, '\n') + 1
      ensures line == EditAll(keys[..used - 1]) && Text(shellBuffer[..], 0) == line
      ensures History() == Remember(old(History()), line)
    {
      var pos: nat := 0;
      shellBuffer[0] := NUL;
      used := 0;
      ghost var end := IndexOf(keys, '\n');
      while keys[used] != '\n'
        modifies shellBuffer
        invariant used <= end < |keys| && pos < BUFFER_SIZE
        invariant shellBuffer[..pos] == EditAll(keys[..used]) && shellBuffer[pos] == NUL
        decreases end - used
      {
        EditAllStep(keys, used);
        pos := EditKey(keys[used], pos);
        used := used + 1;
      }
      used := used + 1;
      shellBuffer[pos] := NUL;
      line := shellBuffer[..pos];
      TextAtMeans(shellBuffer[..], 0, line);
      AddToHistory(line);
    }

    /** One key that is not Enter; the buffer stays terminated at the cursor. */
    method EditKey(c: char, pos: nat) returns (newPos: nat)
      requires Valid() && pos < BUFFER_SIZE && shellBuffer[pos] == NUL
      modifies shellBuffer
      ensures newPos < BUFFER_SIZE && shellBuffer[newPos] == NUL
      ensures shellBuffer[..newPos] == Edit(old(shellBuffer[..pos]), c)
    {
      newPos := pos;
      if c == '\U{8}' {
        if newPos > 0 {
          newPos := newPos - 1;
          shellBuffer[newPos] := NUL;
        }
      } else if newPos < BUFFER_SIZE - 1 && ' ' <= c <= '~' {
        shellBuffer[newPos] := c;
        newPos := newPos + 1;
        shellBuffer[newPos] := NUL;
      }
    }

    // ---------------------------------------------------------------- parsing

    /** strcpy into the parse buffer. */
    method CopyInput(input: string)
      requires Valid() && |input| < BUFFER_SIZE
      modifies parseBuffer
      ensures parseBuffer[..|input|] == input && parseBuffer[|input|] == NUL
    {
      for i := 0 to |input|
        invariant parseBuffer[..i] == input[..i]
      {
        parseBuffer[i] := input[i];
      }
      parseBuffer[|input|] := NUL;
    }

    method SkipBlanks(p: nat, ghost input: string) returns (q: nat)
      requires Valid() && Ahead(parseBuffer[..], input, p)
      ensures Ahead(parseBuffer[..], input, q) && p <= q && SkipSpaces(input[p..]) == input[q..]
    {
      q := p;
      while parseBuffer[q] == ' '
        invariant p <= q && Ahead(parseBuffer[..], input, q) && SkipSpaces(input[p..]) == SkipSpaces(input[q..])
        decreases |input| - q
      {
        NotAtEnd(parseBuffer[..], input, q);
        assert input[q..][1..] == input[q + 1..];
        q := q + 1;
      }
      AtChar(parseBuffer[..], input, q);
    }

    /** Advances to the next `stop`, or to the end. */
    method ScanTo(stop: char, p: nat, ghost input: string) returns (q: nat)
      requires Valid() && stop != NUL && Ahead(parseBuffer[..], input, p)
      ensures p <= q && Ahead(parseBuffer[..], input, q) && q == p + IndexOf(input[p..], stop)
    {
      q := p;
      while parseBuffer[q] != NUL && parseBuffer[q] != stop
        invariant p <= q && Ahead(parseBuffer[..], input, q)
        invariant forall k :: p <= k < q ==> input[k] != stop
        decreases |input| - q
      {
        NotAtEnd(parseBuffer[..], input, q);
        q := q + 1;
      }
      AtChar(parseBuffer[..], input, q);
      IndexOfUnique(input[p..], stop, q - p);
    }

    /** shell_parse_command: the arguments are left in the parse buffer, each at its index in `argv`. */
    method ParseCommand(input: string) returns (argv: seq<nat>)
      requires Valid() && |input| < BUFFER_SIZE && NUL !in input
      modifies parseBuffer
      ensures |argv| == |Tokens(input, MAX_ARGS)| <= 8
      ensures forall k :: 0 <= k < |argv| ==> Text(parseBuffer[..], argv[k]) == Tokens(input, MAX_ARGS)[k]
    {
      hide Tokens, SkipSpaces, TokenBody, TokenRest, Placed, Text;
      CopyInput(input);
      argv := [];
      ghost var done: seq<string> := [];
      var p := SkipBlanks(0, input);
      assert input[0..] == input;
      SkipTwice(input, MAX_ARGS);
      while parseBuffer[p] != NUL && |argv| < MAX_ARGS
        modifies parseBuffer
        invariant Ahead(parseBuffer[..], input, p) && SkipSpaces(input[p..]) == input[p..]
        invariant |argv| == |done| <= MAX_ARGS
        invariant Tokens(input, MAX_ARGS) == done + Tokens(input[p..], MAX_ARGS - |done|)
        invariant forall k :: 0 <= k < |done| ==> Placed(parseBuffer[..], argv[k], done[k], p, |input|)
        decreases |input| - p
      {
        NotAtEnd(parseBuffer[..], input, p);
        ghost var b0, t, p0 := parseBuffer[..], input[p..], p;
        var start: nat;
        start, p := TakeToken(p, input);
        StillPlaced(b0, parseBuffer[..], argv, done, p0, p, |input|);
        PlacedText(parseBuffer[..], start, TokenBody(t), p, |input|);
        var len := StrLen(parseBuffer, start);
        ghost var q := p;
        p := SkipBlanks(p, input);
        FurtherOn(parseBuffer[..], argv, done, q, p, |input|);
        FurtherOn(parseBuffer[..], [start], [TokenBody(t)], q, p, |input|);
        TokensStep(t, input[q..], MAX_ARGS - |done|);
        if len > 0 {
          TokensMore(done, TokenBody(t), Tokens(input[p..], MAX_ARGS - |done| - 1));
          argv := argv + [start];
          done := done + [TokenBody(t)];
        }
      }
      AtChar(parseBuffer[..], input, p);
      TokensEnd(input[p..], MAX_ARGS - |done|);
      AllPlaced(parseBuffer[..], argv, done, p, |input|);
    }

    /** One round of the parsing loop: the token at `p`, cut off in place, and where to go on. */
    method TakeToken(p: nat, ghost input: string) returns (start: nat, q: nat)
      requires Valid() && Ahead(parseBuffer[..], input, p) && p < |input|
      modifies parseBuffer
      ensures p < q <= |input| && Ahead(parseBuffer[..], input, q)
      ensures input[q..] == TokenRest(input[p..])
      ensures Placed(parseBuffer[..], start, TokenBody(input[p..]), q, |input|)
      ensures forall k :: 0 <= k < p ==> parseBuffer[k] == old(parseBuffer[k])
    {
      hide TokenBody, TokenRest, Placed, Ahead, IndexOf;
      AheadBounds(parseBuffer[..], input, p);
      AtChar(parseBuffer[..], input, p);
      start := p;
      var stop := ' ';
      if parseBuffer[p] == '"' {
        NotAtEnd(parseBuffer[..], input, p);
        start := p + 1;
        stop := '"';
      }
      q := ScanTo(stop, start, input);
      ghost var end := q;
      ghost var b0 := parseBuffer[..];
      AheadBounds(b0, input, q);
      AtChar(b0, input, q);
      if parseBuffer[q] == stop {
        parseBuffer[q] := NUL;
        q := q + 1;
      }
      TokenParts(input, p, start, end, stop);
      TokenCut(b0, parseBuffer[..], input, start, end, q);
    }
  }

  // ---------------------------------------------------------------- what the tokeniser relies on

  /** From index `p` on the buffer still holds the input, and its terminator. */
  ghost predicate Ahead(b: seq<char>, input: string, p: nat) {
    && |input| < |b| && NUL !in input && p <= |input|
    && b[p..|input|] == input[p..] && b[|input|] == NUL
  }

  lemma NotAtEnd(b: seq<char>, input: string, p: nat)
    requires Ahead(b, input, p) && b[p] != NUL
    ensures p < |input| && Ahead(b, input, p + 1)
  {
    assert b[p + 1..|input|] == b[p..|input|][1..];
  }

  lemma AtChar(b: seq<char>, input: string, p: nat)
    requires Ahead(b, input, p)
    ensures b[p] == if p < |input| then input[p] else NUL
    ensures p < |input| ==> b[p] != NUL
  {
    if p < |input| {
      assert b[p] == b[p..|input|][0] == input[p..][0];
      assert input[p] in input;
    }
  }

  lemma SkipTwice(s: string, n: nat)
    ensures Tokens(s, n) == Tokens(SkipSpaces(s), n)
    ensures SkipSpaces(SkipSpaces(s)) == SkipSpaces(s)
  {
  }

  /** A finished token: terminated before `p`, or at the very end of the input once `p` is there. */
  ghost predicate Placed(b: seq<char>, i: nat, s: string, p: nat, n: nat) {
    TextAt(b, i, s) && (i + |s| < p || p == n)
  }

  /** Writes at or after `p0` leave the tokens finished before it as they are. */
  lemma StillPlaced(b: seq<char>, b': seq<char>, argv: seq<nat>, done: seq<string>, p0: nat, p: nat, n: nat)
    requires |b| == |b'| && |argv| == |done| && p0 < p && p0 < n <= |b|
    requires forall k :: 0 <= k < |done| ==> Placed(b, argv[k], done[k], p0, n)
    requires forall k :: 0 <= k < p0 ==> b'[k] == b[k]
    ensures forall k :: 0 <= k < |done| ==> Placed(b', argv[k], done[k], p, n)
  {
    forall k | 0 <= k < |done| ensures Placed(b', argv[k], done[k], p, n) {
      var i, s := argv[k], done[k];
      assert Placed(b, i, s, p0, n);
      assert b'[i..i + |s|] == b[i..i + |s|];
    }
  }

  lemma AllPlaced(b: seq<char>, argv: seq<nat>, done: seq<string>, p: nat, n: nat)
    requires |argv| == |done| && forall k :: 0 <= k < |done| ==> Placed(b, argv[k], done[k], p, n)
    ensures forall k :: 0 <= k < |done| ==> Text(b, argv[k]) == done[k]
  {
    forall k | 0 <= k < |done| ensures Text(b, argv[k]) == done[k] {
      assert Placed(b, argv[k], done[k], p, n);
      TextAtMeans(b, argv[k], done[k]);
    }
  }

  lemma TokensStep(t: string, rest: string, n: nat)
    requires t != "" && SkipSpaces(t) == t && n > 0 && rest == TokenRest(t)
    ensures var body, next := TokenBody(t), SkipSpaces(rest);
      && Tokens(t, n) == (if body == "" then Tokens(next, n) else [body] + Tokens(next, n - 1))
      && SkipSpaces(next) == next
  {
    SkipTwice(rest, n);
    SkipTwice(rest, n - 1);
  }

  lemma TokensMore(done: seq<string>, body: string, rest: seq<string>)
    ensures done + ([body] + rest) == (done + [body]) + rest
  {
  }

  lemma TokensEnd(t: string, n: nat)
    requires SkipSpaces(t) == t && (t == "" || n == 0)
    ensures Tokens(t, n) == []
  {
  }

  lemma PlacedText(b: seq<char>, i: nat, s: string, p: nat, n: nat)
    requires Placed(b, i, s, p, n)
    ensures Text(b, i) == s && Terminated(b, i)
  {
    TextAtMeans(b, i, s);
  }

  /** Moving on past blanks keeps finished tokens finished. */
  lemma FurtherOn(b: seq<char>, argv: seq<nat>, done: seq<string>, q: nat, p: nat, n: nat)
    requires |argv| == |done| && q <= p <= n
    requires forall k :: 0 <= k < |done| ==> Placed(b, argv[k], done[k], q, n)
    ensures forall k :: 0 <= k < |done| ==> Placed(b, argv[k], done[k], p, n)
  {
    forall k | 0 <= k < |done| ensures Placed(b, argv[k], done[k], p, n) {
      assert Placed(b, argv[k], done[k], q, n);
    }
  }

  lemma AheadBounds(b: seq<char>, input: string, p: nat)
    requires Ahead(b, input, p)
    ensures p <= |input| < |b|
  {
  }

  lemma AheadAfterCut(b: seq<char>, b': seq<char>, input: string, end: nat, q: nat)
    requires Ahead(b, input, end) && |b'| == |b| && end <= q <= |input| && b'[q..] == b[q..]
    ensures Ahead(b', input, q)
  {
    assert b'[q..|input|] == b'[q..][..|input| - q] == b[q..][..|input| - q];
    assert b[q..][..|input| - q] == b[end..|input|][q - end..];
    assert input[q..] == input[end..][q - end..];
    assert b'[|input|] == b'[q..][|input| - q];
  }

  lemma PlacedAfterCut(b: seq<char>, b': seq<char>, input: string, start: nat, end: nat, q: nat)
    requires Ahead(b, input, start) && start <= end <= |input| && |b'| == |b| && b'[..end] == b[..end] && b'[end] == NUL
    requires if end < |input| then q == end + 1 else q == end
    ensures Placed(b', start, input[start..end], q, |input|)
  {
    Scanned(b, input, start, end);
    assert b'[start..end] == b'[..end][start..] == b[..end][start..] == b[start..end];
  }

  /** The effect of cutting a token off at `end`. */
  lemma TokenCut(b: seq<char>, b': seq<char>, input: string, start: nat, end: nat, q: nat)
    requires Ahead(b, input, end) && start <= end && Ahead(b, input, start) && end < |b|
    requires if end < |input| then q == end + 1 && b' == b[end := NUL] else q == end && b' == b
    ensures Ahead(b', input, q) && Placed(b', start, input[start..end], q, |input|)
  {
    hide Ahead, Placed;
    AheadBounds(b, input, end);
    AtChar(b, input, end);
    AheadAfterCut(b, b', input, end, q);
    PlacedAfterCut(b, b', input, start, end, q);
  }

  lemma Scanned(b: seq<char>, input: string, start: nat, end: nat)
    requires Ahead(b, input, start) && start <= end <= |input|
    ensures b[start..end] == input[start..end] && NUL !in input[start..end]
  {
    assert b[start..end] == b[start..|input|][..end - start];
    assert input[start..end] == input[start..][..end - start];
  }

  /** Where the token's body and the rest of the line lie in the input. */
  lemma TokenParts(input: string, p: nat, start: nat, end: nat, stop: char)
    requires p < |input| && start <= end <= |input|
    requires if input[p] == '"' then start == p + 1 && stop == '"' else start == p && stop == ' '
    requires end == start + IndexOf(input[start..], stop)
    ensures TokenBody(input[p..]) == input[start..end]
    ensures TokenRest(input[p..]) == if end < |input| then input[end + 1..] else ""
  {
    var t := input[p..];
    assert t[1..] == input[p + 1..];
    var s := input[start..];
    assert s[..end - start] == input[start..end];
    assert end < |input| ==> s[end - start + 1..] == input[end + 1..];
  }

  lemma EditAllStep(keys: string, k: nat)
    requires k < |keys|
    ensures EditAll(keys[..k + 1]) == Edit(EditAll(keys[..k]), keys[k])
  {
    assert keys[..k + 1][..k] == keys[..k];
  }
}
