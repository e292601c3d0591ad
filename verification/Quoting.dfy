/** Command lines of Windows programs: words are quoted so that they can be told apart again. */
module Quoting {

  // ---- the rules for taking a command line apart ----

  predicate IsSep(c: char) { c == ' ' || c == '\t' }

  function Slashes(n: nat): (s: string) { seq(n, _ => '\\') }

  /** How many backslashes a string starts with. */
  function Run(s: string): (n: nat)
    ensures n <= |s|
  {
    if s != "" && s[0] == '\\' then 1 + Run(s[1..]) else 0
  }

  /**
   * One word and what follows it. 2N backslashes and a quote are N backslashes and a quote
   * that begins or ends quoting; one more backslash makes the quote literal; backslashes
   * before anything else are literal.
   */
  function Word(c: string, quoted: bool): (string, string)
    decreases |c|
  {
    if c == "" then ("", "")
    else if !quoted && IsSep(c[0]) then ("", c)
    else
      var n := Run(c);
      if n < |c| && c[n] == '"' then
        var (w, rest) := Word(c[n + 1..], if n % 2 == 0 then !quoted else quoted);
        (Slashes(n / 2) + (if n % 2 == 0 then "" else "\"") + w, rest)
      else if n > 0 then
        var (w, rest) := Word(c[n..], quoted);
        (Slashes(n) + w, rest)
      else
        var (w, rest) := Word(c[1..], quoted);
        ([c[0]] + w, rest)
  }

  lemma {:induction false} WordShorter(c: string, quoted: bool)
    ensures |Word(c, quoted).1| <= |c|
    ensures c != "" && (quoted || !IsSep(c[0])) ==> |Word(c, quoted).1| < |c|
    decreases |c|
  {
    if c != "" && (quoted || !IsSep(c[0])) {
      var n := Run(c);
      if n < |c| && c[n] == '"' {
        WordShorter(c[n + 1..], if n % 2 == 0 then !quoted else quoted);
      } else if n > 0 {
        WordShorter(c[n..], quoted);
      } else {
        WordShorter(c[1..], quoted);
      }
    }
  }

  /** The words of a command line. */
  ghost function Words(c: string): seq<string>
    decreases |c|
  {
    if c == "" then []
    else if IsSep(c[0]) then Words(c[1..])
    else
      var (w, rest) := Word(c, false);
      WordShorter(c, false);
      [w] + Words(rest)
  }

  // ---- what a quoted word looks like ----

  predicate NeedsQuotes(s: string) { exists i :: 0 <= i < |s| && s[i] in " \t\n\r\"" }

  /** A word is quoted for a blank, a tab, a newline, a return or a quote, and only blanks and tabs part words. */
  lemma Specials(s: string, c: char)
    ensures NeedsQuotes(s) <==> ' ' in s || '\t' in s || '\n' in s || '\r' in s || '\"' in s
    ensures IsSep(c) <==> c as int == 32 || c as int == 9
  {
    assert forall i :: 0 <= i < |s| ==> s[i] in s;
  }

  /** n backslashes and another character: those before a quote are doubled, and the quote escaped. */
  function Escape(n: nat, x: char): string { Slashes(if x == '"' then 2 * n + 1 else n) + [x] }

  /** What goes between the quotes. */
  function Body(s: string): string
    decreases |s|
  {
    var n := Run(s);
    if n == |s| then Slashes(2 * n) else Escape(n, s[n]) + Body(s[n + 1..])
  }

  function Quoted(s: string): string {
    if NeedsQuotes(s) then "\"" + Body(s) + "\"" else s
  }

  /** The words one after the other, a space between two. */
  function CommandLine(args: seq<string>): string {
    if args == [] then "" else if |args| == 1 then Quoted(args[0]) else Quoted(args[0]) + " " + CommandLine(args[1..])
  }

  function NonEmpty(args: seq<string>): seq<string> {
    if args == [] then [] else (if args[0] == "" then [] else [args[0]]) + NonEmpty(args[1..])
  }

  // ---- the round trip ----

  lemma {:induction false} RunOf(n: nat, t: string)
    requires t == "" || t[0] != '\\'
    ensures Run(Slashes(n) + t) == n
  {
    if n == 0 {
      assert Slashes(0) + t == t;
    } else {
      RunOf(n - 1, t);
      assert (Slashes(n) + t)[1..] == Slashes(n - 1) + t;
    }
  }

  /** A string is its leading backslashes and the rest. */
  lemma {:induction false} RunSplit(s: string)
    ensures s[..Run(s)] == Slashes(Run(s)) && (Run(s) < |s| ==> s[Run(s)] != '\\')
  {
    if s != "" && s[0] == '\\' {
      RunSplit(s[1..]);
      assert s[..Run(s)] == [s[0]] + s[1..][..Run(s) - 1];
    }
  }

  // One step of `Word`, by what its backslashes are followed by.

  lemma AtQuote(c: string, quoted: bool, n: nat, t: string)
    requires n == Run(c) < |c| && c[n] == '"' && c[n + 1..] == t && (quoted || n > 0 || !IsSep(c[0]))
    ensures var (w, rest) := Word(t, if n % 2 == 0 then !quoted else quoted);
            Word(c, quoted) == (Slashes(n / 2) + (if n % 2 == 0 then "" else "\"") + w, rest)
  {
  }

  lemma AtSlashes(c: string, quoted: bool, n: nat, t: string)
    requires n == Run(c) > 0 && (n < |c| ==> c[n] != '"') && c[n..] == t
    ensures Word(c, quoted) == (Slashes(n) + Word(t, quoted).0, Word(t, quoted).1)
  {
  }

  lemma AtPlain(c: string, quoted: bool, x: char, t: string)
    requires c != "" && c[0] == x && c[1..] == t && x != '\\' && x != '"' && (quoted || !IsSep(x))
    ensures Word(c, quoted) == ([x] + Word(t, quoted).0, Word(t, quoted).1)
  {
  }

  lemma AtEnd(rest: string)
    requires rest == "" || IsSep(rest[0])
    ensures Word(rest, false) == ("", rest)
  {
  }

  lemma {:induction false} BodyIs(s: string, n: nat)
    requires n == Run(s)
    ensures Body(s) == if n == |s| then Slashes(2 * n) else Escape(n, s[n]) + Body(s[n + 1..])
  {
    hide Run, Escape;
  }

  lemma QuoteReads(n: nat, t: string, quoted: bool)
    requires quoted || n > 0
    ensures var (w, rest) := Word(t, if n % 2 == 0 then !quoted else quoted);
            Word(Slashes(n) + ("\"" + t), quoted) == (Slashes(n / 2) + (if n % 2 == 0 then "" else "\"") + w, rest)
  {
    hide Word, Run;
    RunOf(n, "\"" + t);
    AtQuote(Slashes(n) + ("\"" + t), quoted, n, t);
  }

  lemma PlainReads(n: nat, x: char, t: string, quoted: bool)
    requires x != '\\' && x != '"' && (quoted || !IsSep(x))
    ensures Word(Slashes(n) + ([x] + t), quoted) == (Slashes(n) + ([x] + Word(t, quoted).0), Word(t, quoted).1)
  {
    hide Word, Run;
    AtPlain([x] + t, quoted, x, t);
    if n > 0 {
      RunOf(n, [x] + t);
      AtSlashes(Slashes(n) + ([x] + t), quoted, n, [x] + t);
    } else {
      assert Slashes(0) + ([x] + t) == [x] + t && Slashes(0) + ([x] + Word(t, quoted).0) == [x] + Word(t, quoted).0;
    }
  }

  /** Inside quotes the body of s reads as s, and its closing quote ends the quoting. */
  lemma {:induction false} BodyReads(s: string, rest: string)
    requires rest == "" || IsSep(rest[0])
    ensures Word(Body(s) + ("\"" + rest), true) == (s, rest)
    decreases |s|
  {
    hide Word, Run, Body;
    var n := Run(s);
    RunSplit(s);
    BodyIs(s, n);
    if n == |s| {
      assert s == Slashes(n) && Slashes(n) + "" + "" == s;
      QuoteReads(2 * n, rest, true);
      AtEnd(rest);
    } else {
      var x, u := s[n], s[n + 1..];
      var t := Body(u) + ("\"" + rest);
      BodyReads(u, rest);
      Pieces(s, n, x, u);
      if x == '"' {
        QuoteReads(2 * n + 1, t, true);
        Glue(Slashes(2 * n + 1) + "\"", Body(u), "\"" + rest);
        Glue(Slashes(2 * n + 1), "\"", t);
      } else {
        PlainReads(n, x, t, true);
        Glue(Slashes(n) + [x], Body(u), "\"" + rest);
        Glue(Slashes(n), [x], t);
        Glue(Slashes(n), [x], u);
      }
    }
  }

  lemma Pieces(s: string, n: nat, x: char, u: string)
    requires n < |s| && x == s[n] && u == s[n + 1..] && s[..n] == Slashes(n)
    ensures s == Slashes(n) + [x] + u
  {
  }

  lemma Glue(a: string, b: string, c: string)
    ensures (a + b) + c == a + (b + c)
  {
  }

  /** Outside quotes a word without separators and quotes reads as itself. */
  lemma {:induction false} PlainWordReads(s: string, rest: string)
    requires !NeedsQuotes(s) && (rest == "" || IsSep(rest[0]))
    ensures Word(s + rest, false) == (s, rest)
    decreases |s|
  {
    hide Word, Run;
    var n := Run(s);
    RunSplit(s);
    AtEnd(rest);
    if s == "" {
      assert s + rest == rest;
    } else if n == |s| {
      assert s == Slashes(n) && s + "" == s;
      RunOf(n, rest);
      AtSlashes(s + rest, false, n, rest);
    } else {
      var x, u := s[n], s[n + 1..];
      assert x !in " \t\n\r\"";
      assert forall i :: 0 <= i < |u| ==> u[i] == s[n + 1 + i];
      PlainWordReads(u, rest);
      PlainReads(n, x, u + rest, false);
      Pieces(s, n, x, u);
      Glue(Slashes(n) + [x], u, rest);
      Glue(Slashes(n), [x], u + rest);
      Glue(Slashes(n), [x], u);
    }
  }

  lemma QuotedReads(s: string, rest: string)
    requires rest == "" || IsSep(rest[0])
    ensures Word(Quoted(s) + rest, false) == (s, rest)
  {
    if NeedsQuotes(s) {
      QuotesRead(s, rest);
    } else {
      PlainWordReads(s, rest);
      hide Word;
    }
  }

  lemma QuotesRead(s: string, rest: string)
    requires NeedsQuotes(s) && (rest == "" || IsSep(rest[0]))
    ensures Word(Quoted(s) + rest, false) == (s, rest)
  {
    hide Word, Body, NeedsQuotes;
    var t := Body(s) + ("\"" + rest);
    BodyReads(s, rest);
    assert Quoted(s) + rest == "\"" + t;
    hide Quoted;
    AtQuote("\"" + t, false, 0, t);
    assert Slashes(0) + "" + s == s;
  }

  /** The quoted form of a word is not mistaken for a separator, unless the word is empty. */
  lemma QuotedStarts(s: string)
    ensures s == "" ==> Quoted(s) == ""
    ensures s != "" ==> Quoted(s) != "" && !IsSep(Quoted(s)[0])
  {
    if s != "" && !NeedsQuotes(s) {
      assert s[0] !in " \t\n\r\"";
    }
  }

  lemma WordsStep(c: string, w: string, rest: string)
    requires c != "" && !IsSep(c[0]) && Word(c, false) == (w, rest)
    ensures Words(c) == [w] + Words(rest)
  {
  }

  lemma WordsSkip(c: string, x: char, rest: string)
    requires c == [x] + rest && IsSep(x)
    ensures Words(c) == Words(rest)
  {
    assert c[1..] == rest;
  }

  /** Main theorem: the words of the command line are the arguments that are not empty. */
  lemma {:induction false} RoundTrip(args: seq<string>)
    ensures Words(CommandLine(args)) == NonEmpty(args)
  {
    if args != [] {
      RoundTrip(args[1..]);
      hide *;
      var rest := AfterFirst(args);
      FirstWord(args[0], rest);
      NonEmptyIs(args);
    } else {
      hide CommandLine;
      assert CommandLine([]) == "" by { NoArguments(); }
    }
  }

  lemma NoArguments()
    ensures CommandLine([]) == "" && Words("") == [] && NonEmpty([]) == []
  {
  }

  lemma NonEmptyIs(args: seq<string>)
    requires args != []
    ensures NonEmpty(args) == (if args[0] == "" then [] else [args[0]]) + NonEmpty(args[1..])
  {
  }

  /** What follows the first argument has the words of the others. */
  lemma AfterFirst(args: seq<string>) returns (rest: string)
    requires args != []
    ensures CommandLine(args) == Quoted(args[0]) + rest && (rest == "" || IsSep(rest[0]))
    ensures Words(rest) == Words(CommandLine(args[1..]))
  {
    hide Words, Quoted;
    if |args| == 1 {
      rest := "";
      assert Quoted(args[0]) + "" == Quoted(args[0]);
    } else {
      rest := " " + CommandLine(args[1..]);
      assert CommandLine(args) == Quoted(args[0]) + rest;
      hide CommandLine;
      WordsSkip(rest, ' ', CommandLine(args[1..]));
    }
  }

  lemma FirstWord(s: string, rest: string)
    requires rest == "" || IsSep(rest[0])
    ensures Words(Quoted(s) + rest) == (if s == "" then [] else [s]) + Words(rest)
  {
    hide Words, Word, Quoted;
    var q := Quoted(s);
    QuotedStarts(s);
    if s == "" {
      assert q + rest == rest && [] + Words(rest) == Words(rest);
    } else {
      QuotedReads(s, rest);
      WordsStep(q + rest, s, rest);
    }
  }

  /** So the arguments come back exactly when none is empty. */
  lemma {:induction false} NonEmptyAll(args: seq<string>)
    ensures Words(CommandLine(args)) == args <==> "" !in args
  {
    RoundTrip(args);
    FilterAll(args);
  }

  lemma {:induction false} FilterAll(args: seq<string>)
    ensures |NonEmpty(args)| <= |args| && (NonEmpty(args) == args <==> "" !in args)
  {
    if args != [] {
      FilterAll(args[1..]);
      assert args == [args[0]] + args[1..];
      if args[0] != "" && NonEmpty(args) == args {
        assert NonEmpty(args)[1..] == NonEmpty(args[1..]);
      }
    }
  }

  lemma {:induction false} BodyLength(s: string)
    ensures |s| <= |Body(s)| <= 2 * |s|
    decreases |s|
  {
    if Run(s) < |s| {
      BodyLength(s[Run(s) + 1..]);
    }
  }

  // ---- writing the command line through a moving pointer ----

  /** What was there before p, and n more characters. */
  ghost predicate Wrote(before: seq<char>, after: seq<char>, p: nat, text: string) {
    |after| == |before| && p + |text| <= |after| && after[..p + |text|] == before[..p] + text
  }

  lemma WroteMore(a: seq<char>, b: seq<char>, c: seq<char>, p: nat, x: string, y: string)
    requires Wrote(a, b, p, x) && Wrote(b, c, p + |x|, y)
    ensures Wrote(a, c, p, x + y)
  {
    assert c[..p + |x| + |y|] == (a[..p] + x) + y;
  }

  /** `*p++ = '\\'`, n times. */
  method PutSlashes(cmd: array<char>, p: nat, n: nat) returns (p': nat)
    requires p + n <= cmd.Length
    modifies cmd
    ensures p' == p + n && Wrote(old(cmd[..]), cmd[..], p, Slashes(n))
  {
    p' := p;
    var nb := n;
    while nb > 0
      invariant 0 <= nb <= n && p' == p + n - nb
      invariant cmd[..p'] == old(cmd[..p]) + Slashes(n - nb)
    {
      cmd[p'] := '\\';
      p' := p' + 1;
      nb := nb - 1;
      assert Slashes(n - nb) == Slashes(n - nb - 1) + ['\\'];
    }
  }

  method PutChar(cmd: array<char>, p: nat, c: char) returns (p': nat)
    requires p < cmd.Length
    modifies cmd
    ensures p' == p + 1 && Wrote(old(cmd[..]), cmd[..], p, [c])
  {
    cmd[p] := c;
    p' := p + 1;
    assert cmd[..p'] == old(cmd[..p]) + [c];
  }

  /** The backslashes at s[i..] are copied as they are counted. */
  method CopySlashes(cmd: array<char>, p: nat, s: string, i: nat) returns (p': nat, i': nat, nb: nat)
    requires i <= |s| && p + Run(s[i..]) <= cmd.Length
    modifies cmd
    ensures nb == Run(s[i..]) && i' == i + nb && p' == p + nb && Wrote(old(cmd[..]), cmd[..], p, Slashes(nb))
  {
    p', i', nb := p, i, 0;
    RunSplit(s[i..]);
    while i' < |s| && s[i'] == '\\'
      invariant i <= i' <= |s| && i' == i + nb && p' == p + nb
      invariant Run(s[i..]) == nb + Run(s[i'..])
      invariant cmd[..p'] == old(cmd[..p]) + Slashes(nb)
    {
      assert s[i'..][1..] == s[i' + 1..];
      cmd[p'] := s[i'];
      p', i', nb := p' + 1, i' + 1, nb + 1;
      assert Slashes(nb) == Slashes(nb - 1) + ['\\'];
    }
  }

  /** `dblquote`: the quoted word and where it ends, a zero after it. */
  method DblQuote(cmd: array<char>, p: nat, s: string) returns (p': nat)
    requires p + 2 * |s| + 2 < cmd.Length
    modifies cmd
    ensures Wrote(old(cmd[..]), cmd[..], p, Quoted(s)) && p' == p + |Quoted(s)| && |Quoted(s)| <= 2 * |s| + 2
    ensures cmd[p'] == '\0'
  {
    BodyLength(s);
    var i := 0;
    while i < |s| && s[i] !in " \t\n\r\""
      invariant 0 <= i <= |s| && forall j :: 0 <= j < i ==> s[j] !in " \t\n\r\""
    {
      i := i + 1;
    }
    if i == |s| {
      forall j | 0 <= j < |s| {
        cmd[p + j] := s[j];
      }
      cmd[p + |s|] := '\0';
      assert cmd[..p + |s|] == old(cmd[..p]) + s;
      return p + |s|;
    }
    p' := PutQuoted(cmd, p, s);
  }

  method PutQuoted(cmd: array<char>, p: nat, s: string) returns (p': nat)
    requires p + 2 * |s| + 2 < cmd.Length && NeedsQuotes(s)
    modifies cmd
    ensures Wrote(old(cmd[..]), cmd[..], p, Quoted(s)) && p' == p + |Quoted(s)| && p' < cmd.Length && cmd[p'] == '\0'
  {
    BodyLength(s);
    assert Quoted(s) == "\"" + Body(s) + "\"";
    hide Wrote, Body, Quoted;
    ghost var before := cmd[..];
    p' := PutChar(cmd, p, '"');
    p' := PutBody(cmd, p', s, before, p);
    ghost var mid := cmd[..];
    p' := PutChar(cmd, p', '"');
    WroteMore(before, mid, cmd[..], p, "\"" + Body(s), "\"");
    ghost var done := cmd[..];
    cmd[p'] := '\0';
    StillWrote(before, done, cmd[..], p, Quoted(s));
  }

  lemma StillWrote(a: seq<char>, b: seq<char>, c: seq<char>, p: nat, x: string)
    requires Wrote(a, b, p, x) && |c| == |b| && c[..p + |x|] == b[..p + |x|]
    ensures Wrote(a, c, p, x)
  {
  }

  /** After nb backslashes of the word: its next character, escaped if it is a quote. */
  method PutEscaped(cmd: array<char>, p: nat, nb: nat, c: char, ghost before: seq<char>, ghost p0: nat,
      ghost text: string)
    returns (p': nat)
    requires p == p0 + |text| + nb && p0 + |text| + |Escape(nb, c)| <= cmd.Length
    requires Wrote(before, cmd[..], p0, text + Slashes(nb))
    modifies cmd
    ensures p' == p0 + |text| + |Escape(nb, c)| && Wrote(before, cmd[..], p0, text + Escape(nb, c))
  {
    hide Wrote;
    p' := p;
    ghost var t := text + Slashes(nb);
    if c == '"' {
      p' := PutSlashes(cmd, p', nb);
      WroteMore(before, old(cmd[..]), cmd[..], p0, t, Slashes(nb));
      t := t + Slashes(nb);
      ghost var mid := cmd[..];
      p' := PutChar(cmd, p', '\\');
      WroteMore(before, mid, cmd[..], p0, t, ['\\']);
      t := t + ['\\'];
      assert t == text + Slashes(2 * nb + 1);
    }
    ghost var mid := cmd[..];
    p' := PutChar(cmd, p', c);
    WroteMore(before, mid, cmd[..], p0, t, [c]);
    assert t + [c] == text + Escape(nb, c);
  }

  /** The loop of `dblquote`. */
  method PutBody(cmd: array<char>, q: nat, s: string, ghost before: seq<char>, ghost p: nat) returns (p': nat)
    requires q + 2 * |s| < cmd.Length && q == p + 1 && Wrote(before, cmd[..], p, "\"")
    modifies cmd
    ensures p' == q + |Body(s)| && Wrote(before, cmd[..], p, "\"" + Body(s))
  {
    BodyLength(s);
    hide Wrote, Body, Escape, Run;
    p' := q;
    var i, done := 0, false;
    ghost var text := "\"";
    assert s[0..] == s;
    while !done
      invariant 0 <= i <= |s|
      invariant done ==> p' == q + |Body(s)| && Wrote(before, cmd[..], p, "\"" + Body(s))
      invariant !done ==> p' == p + |text| && Wrote(before, cmd[..], p, text)
      invariant !done ==> text + Body(s[i..]) == "\"" + Body(s)
      decreases !done, |s| - i
    {
      p', i, done, text := PutPiece(cmd, p', s, i, before, p, text, "\"" + Body(s));
    }
  }

  /** A run of backslashes and the character after it, or the end. */
  method PutPiece(cmd: array<char>, q: nat, s: string, i: nat, ghost before: seq<char>, ghost p: nat,
      ghost text: string, ghost full: string)
    returns (q': nat, i': nat, done: bool, ghost text': string)
    requires i <= |s| && q == p + |text| && p + |full| < cmd.Length && text + Body(s[i..]) == full
    requires Wrote(before, cmd[..], p, text)
    modifies cmd
    ensures i <= i' <= |s| && (done ==> q' == p + |full| && Wrote(before, cmd[..], p, full))
    ensures !done ==> i < i' && q' == p + |text'| && Wrote(before, cmd[..], p, text') && text' + Body(s[i'..]) == full
  {
    hide Wrote, Body, Escape, Run;
    ghost var u, mid := s[i..], cmd[..];
    BodyRoom(u, text, |full|);
    var nb;
    q', i', nb := CopySlashes(cmd, q, s, i);
    BodyIs(u, nb);
    WroteMore(before, mid, cmd[..], p, text, Slashes(nb));
    done, text' := i' == |s|, text;
    if done {
      mid := cmd[..];
      q' := PutSlashes(cmd, q', nb);
      WroteMore(before, mid, cmd[..], p, text + Slashes(nb), Slashes(nb));
      assert text + Slashes(nb) + Slashes(nb) == text + Slashes(2 * nb);
      return;
    }
    q' := PutEscaped(cmd, q', nb, s[i'], before, p, text);
    Glue(text, Escape(nb, s[i']), Body(s[i' + 1..]));
    assert u[nb + 1..] == s[i' + 1..];
    text' := text + Escape(nb, s[i']);
    i' := i' + 1;
  }

  lemma BodyRoom(u: string, text: string, n: nat)
    requires |text + Body(u)| == n
    ensures |text| + Run(u) <= n
    ensures Run(u) == |u| ==> |text| + 2 * Run(u) == n
    ensures Run(u) < |u| ==> |text| + |Escape(Run(u), u[Run(u)])| <= n
  {
    BodyIs(u, Run(u));
  }

  // ---- `proccmd` ----

  /** The words, each with a space after it. */
  ghost function Spaced(args: seq<string>): string {
    if args == [] then "" else Spaced(args[..|args| - 1]) + Quoted(args[|args| - 1]) + " "
  }

  lemma {:induction false} SpacedFront(a: string, args: seq<string>)
    ensures Spaced([a] + args) == Quoted(a) + " " + Spaced(args)
    decreases |args|
  {
    hide Quoted;
    var all := [a] + args;
    if args == [] {
      assert all[..0] == [];
    } else {
      var init, last := args[..|args| - 1], args[|args| - 1];
      assert all[..|all| - 1] == [a] + init;
      SpacedFront(a, init);
      assert Quoted(a) + " " + Spaced(init) + Quoted(last) + " "
        == Quoted(a) + " " + (Spaced(init) + Quoted(last) + " ");
    }
  }

  lemma {:induction false} SpacedIs(args: seq<string>)
    requires args != []
    ensures Spaced(args) == CommandLine(args) + " "
  {
    hide Quoted;
    assert args == [args[0]] + args[1..];
    SpacedFront(args[0], args[1..]);
    if |args| > 1 {
      SpacedIs(args[1..]);
    }
  }

  /** Room for the words at their longest, with a space after each and a zero at the end. */
  function Room(args: seq<string>): nat {
    if args == [] then 1 else Room(args[..|args| - 1]) + 2 * |args[|args| - 1]| + 3
  }

  lemma {:induction false} RoomMono(args: seq<string>, i: nat)
    requires i <= |args|
    ensures Room(args[..i]) <= Room(args)
    decreases |args| - i
  {
    if i < |args| {
      assert args[..i + 1][..i] == args[..i];
      RoomMono(args, i + 1);
    } else {
      assert args[..i] == args;
    }
  }

  /** `proccmd`, with a buffer large enough. */
  method ProcCmd(argv: seq<string>) returns (cmd: array<char>, p: nat)
    ensures fresh(cmd) && p < cmd.Length && cmd[..p] == CommandLine(argv) && cmd[p] == '\0'
  {
    cmd := new char[Room(argv)];
    p := 0;
    var i := 0;
    assert argv[..0] == [] && Spaced([]) == "" && Room([]) > 0;
    hide Spaced, Room, CommandLine;
    while i < |argv|
      invariant 0 <= i <= |argv| && p < Room(argv[..i]) <= cmd.Length && Room(argv) == cmd.Length
      invariant cmd[..p] == Spaced(argv[..i])
    {
      p := AddWord(cmd, p, argv, i);
      RoomMono(argv, i + 1);
      i := i + 1;
    }
    assert argv[..i] == argv;
    if p != 0 {
      p := p - 1;
    }
    if argv == [] {
      NoArguments();
    } else {
      SpacedIs(argv);
      assert cmd[..p] == cmd[..p + 1][..p];
    }
    cmd[p] := '\0';
  }

  method AddWord(cmd: array<char>, p: nat, argv: seq<string>, i: nat) returns (p': nat)
    requires i < |argv| && p < cmd.Length && p < Room(argv[..i]) && Room(argv) <= cmd.Length
    requires cmd[..p] == Spaced(argv[..i])
    modifies cmd
    ensures p < p' < cmd.Length && p' < Room(argv[..i + 1]) && cmd[..p'] == Spaced(argv[..i + 1])
  {
    assert argv[..i + 1][..i] == argv[..i];
    RoomMono(argv, i + 1);
    p' := DblQuote(cmd, p, argv[i]);
    assert cmd[..p'] == Spaced(argv[..i]) + Quoted(argv[i]);
    cmd[p'] := ' ';
    p' := p' + 1;
    assert cmd[..p'] == Spaced(argv[..i]) + Quoted(argv[i]) + " ";
  }
}
