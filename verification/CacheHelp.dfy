/** The help text of a cache entry: written as comment lines by OutputHelpString, and
    read back by LoadCache (cmCacheManager). */
module CacheHelp {

  /** The text may be divided before position n. */
  predicate IsBreak(s: string, n: nat)
    requires n <= |s|
  {
    n == |s| || s[n] == '\n' || (60 <= n && s[n] == ' ')
  }

  /** The first break at position n or later. */
  function NextBreak(s: string, n: nat): (k: nat)
    requires n <= |s|
    ensures n <= k <= |s| && IsBreak(s, k) && forall j :: n <= j < k ==> !IsBreak(s, j)
    decreases |s| - n
  {
    if IsBreak(s, n) then n else NextBreak(s, n + 1)
  }

  /** The chunks that are written as lines of their own. */
  function Chunks(s: string): seq<string> {
    if s == "" then []
    else
      var n := NextBreak(s, 1);
      [s[..n]] + Chunks(s[n..])
  }

  /** The line of a chunk; a newline that begins it is written as two characters. */
  function Line(c: string): string {
    "//" + (if c != "" && c[0] == '\n' then "\\n" + c[1..] else c) + "\n"
  }

  function Lines(cs: seq<string>): string {
    if cs == [] then "" else Line(cs[0]) + Lines(cs[1..])
  }

  function Concat(cs: seq<string>): string {
    if cs == [] then "" else cs[0] + Concat(cs[1..])
  }

  /** What is written. A text that begins with a newline is written twice: first
      as it is, because the length of its first, empty, line wraps around. */
  function Written(s: string): string {
    if s == "" then ""
    else Head(s) + Lines(Chunks(s))
  }

  function Head(s: string): string
    requires s != ""
  {
    if s[0] == '\n' then "//" + "\\n" + s[1..] + "\n" else ""
  }

  /** Up to the given end; everything when the end comes before the beginning. */
  function Substr(s: string, pos: nat, end: nat): string
    requires pos <= |s| && end <= |s|
  {
    if end < pos then s[pos..] else s[pos..end]
  }

  lemma {:induction false} LinesMore(cs: seq<string>, c: string)
    ensures Lines(cs + [c]) == Lines(cs) + Line(c)
  {
    if cs == [] {
      assert [c][1..] == [];
    } else {
      assert (cs + [c])[1..] == cs[1..] + [c];
      LinesMore(cs[1..], c);
    }
  }

  lemma NextBreakIs(s: string, n: nat, k: nat)
    requires n <= k <= |s| && IsBreak(s, k) && forall j :: n <= j < k ==> !IsBreak(s, j)
    ensures NextBreak(s, n) == k
    decreases k - n
  {
    if n < k { NextBreakIs(s, n + 1, k); }
  }

  /** The loop has written the given chunks, and looks for the end of the one at pos. */
  ghost predicate Writing(s: string, done: seq<string>, pos: nat, i: nat) {
    && pos <= i <= |s| + 1 && (i == |s| + 1 ==> pos == |s|)
    && (i <= |s| && s != "" ==> pos < |s|) && (pos == i ==> i == 0)
    && Chunks(s) == done + Chunks(s[pos..])
    && forall j :: 0 < j < i - pos && pos + j <= |s| ==> !IsBreak(s[pos..], j)
  }

  lemma ChunkWritten(s: string, done: seq<string>, pos: nat, i: nat)
    requires Writing(s, done, pos, i) && pos < i <= |s| && IsBreak(s[pos..], i - pos)
    ensures Writing(s, done + [s[pos..i]], i, i + 1)
    ensures Lines(done + [s[pos..i]]) == Lines(done) + Line(s[pos..i])
  {
    var rest, n := s[pos..], i - pos;
    NextBreakIs(rest, 1, n);
    assert rest[..n] == s[pos..i] && rest[n..] == s[i..];
    assert done + ([s[pos..i]] + Chunks(s[i..])) == (done + [s[pos..i]]) + Chunks(s[i..]);
    LinesMore(done, s[pos..i]);
  }

  lemma NoBreakYet(s: string, done: seq<string>, pos: nat, i: nat)
    requires Writing(s, done, pos, i) && i < |s| && (i == 0 || !IsBreak(s[pos..], i - pos))
    ensures Writing(s, done, pos, i + 1)
  {
  }

  method OutputHelpString(fout: string, helpString: string) returns (out: string)
    ensures out == fout + Written(helpString)
  {
    hide Chunks, Lines, Writing, Line, Head, Substr, IsBreak;
    out := fout;
    var end := |helpString|;
    if end == 0 {
      return;
    }
    var pos := 0;
    ghost var done: seq<string> := [];
    StartWriting(helpString);
    for i := 0 to end + 1
      invariant Writing(helpString, done, pos, i) && (i == 0 ==> done == [])
      invariant out == fout + ((if i == 0 then "" else Head(helpString)) + Lines(done))
    {
      WritingFacts(helpString, done, pos, i);
      if i == end || helpString[i] == '\n' || (i - pos >= 60 && helpString[i] == ' ') {
        ghost var before, at := out, pos;
        LineWritten(before, helpString, at, i);
        out := out + "//";
        if helpString[pos] == '\n' {
          pos := pos + 1;
          out := out + "\\n";
        }
        var oneLine := Substr(helpString, pos, i);
        out := out + oneLine + "\n";
        pos := i;
        if i > 0 {
          ChunkWritten(helpString, done, at, i);
          Joined(fout, Head(helpString), Lines(done), Line(helpString[at..i]));
          done := done + [helpString[at..i]];
        } else {
          NoBreakYet(helpString, done, 0, 0);
        }
      } else {
        NoBreakYet(helpString, done, pos, i);
      }
    }
    WritingFacts(helpString, done, pos, end + 1);
  }

  lemma Joined(a: string, b: string, c: string, d: string)
    ensures a + (b + c) + d == a + (b + (c + d))
  {
  }

  /** What one turn of the loop writes. */
  lemma LineWritten(before: string, s: string, at: nat, i: nat)
    requires at < |s| && at <= i <= |s| && (at == i ==> i == 0 && s[0] == '\n')
    ensures before + (if i == 0 then Head(s) else Line(s[at..i])) ==
      (if s[at] == '\n' then before + "//" + "\\n" + Substr(s, at + 1, i) + "\n"
        else before + "//" + Substr(s, at, i) + "\n")
  {
    if i > 0 { assert s[at..i][1..] == s[at + 1..i]; }
  }

  lemma WritingFacts(s: string, done: seq<string>, pos: nat, i: nat)
    requires Writing(s, done, pos, i)
    ensures pos <= i <= |s| + 1 && (i <= |s| && s != "" ==> pos < |s|) && (pos == i ==> i == 0)
    ensures i <= |s| ==> (IsBreak(s[pos..], i - pos) <==> i == |s| || s[i] == '\n' || (i - pos >= 60 && s[i] == ' '))
    ensures Lines([]) == "" && (s != "" && s[0] != '\n' ==> Head(s) == "")
    ensures i == |s| + 1 ==> Chunks(s) == done
  {
    if i == |s| + 1 { assert Chunks(s[pos..]) == []; }
  }

  lemma StartWriting(s: string)
    ensures Writing(s, [], 0, 0) && Lines([]) == "" && Chunks(s[|s|..]) == []
  {
    assert s[0..] == s;
    assert [] + Chunks(s) == Chunks(s);
  }

  // ----- reading

  /** The first position of a character, or the length. */
  function Find(s: string, c: char): (n: nat)
    ensures n <= |s| && c !in s[..n] && (n < |s| ==> s[n] == c)
  {
    if s == "" || s[0] == c then 0
    else
      var n := Find(s[1..], c);
      assert s[..n + 1] == [s[0]] + s[1..][..n];
      n + 1
  }

  /** What the reader sees of a line: no carriage return at its end, and nothing from a
      null character on. */
  function Clean(s: string): string {
    var t := if s != "" && s[|s| - 1] == '\r' then s[..|s| - 1] else s;
    t[..Find(t, '\0')]
  }

  /** The first line, and the text after it. */
  function GetLine(fin: string): (r: (string, string))
    ensures r.0 != "" ==> |r.1| < |fin|
  {
    var n := Find(fin, '\n');
    (Clean(fin[..n]), if n < |fin| then fin[n + 1..] else "")
  }

  predicate IsHelp(line: string) {
    "//" <= line
  }

  /** A comment without its slashes. */
  function Content(text: string): string {
    if "\\n" <= text then "\n" + text[2..] else text
  }

  /** The help text, and the text at whose first line reading stops. */
  function ReadBack(fin: string): (string, string)
    decreases |fin|
  {
    var (line, rest) := GetLine(fin);
    if IsHelp(line) then
      var (help, unread) := ReadBack(rest);
      (Content(line[2..]) + help, unread)
    else ("", fin)
  }

  lemma ReadStep(fin: string)
    ensures var (line, rest) := GetLine(fin);
      if IsHelp(line) then ReadBack(fin) == (Content(line[2..]) + ReadBack(rest).0, ReadBack(rest).1)
      else ReadBack(fin) == ("", fin)
  {
  }

  lemma HelpContent(line: string)
    requires |line| >= 2 && line[0] == '/' && line[1] == '/'
    ensures IsHelp(line)
    ensures Content(line[2..]) ==
      if |line| >= 4 && line[2] == '\\' && line[3] == 'n' then "\n" + line[4..] else line[2..]
  {
    if |line| >= 4 { assert line[2..][..2] == [line[2], line[3]]; }
  }

  method LoadHelpString(fin: string) returns (helpString: string, buffer: string, rest: string)
    ensures helpString == ReadBack(fin).0 && (buffer, rest) == GetLine(ReadBack(fin).1)
  {
    helpString := "";
    hide GetLine, ReadBack, Content;
    var line := GetLine(fin);
    buffer, rest := line.0, line.1;
    ghost var at := fin;
    while |buffer| >= 2 && buffer[0] == '/' && buffer[1] == '/'
      invariant (buffer, rest) == GetLine(at)
      invariant ReadBack(fin).0 == helpString + ReadBack(at).0 && ReadBack(fin).1 == ReadBack(at).1
      decreases |at|
    {
      ReadStep(at);
      HelpContent(buffer);
      assert helpString + (Content(buffer[2..]) + ReadBack(rest).0) ==
        helpString + Content(buffer[2..]) + ReadBack(rest).0;
      if |buffer| >= 4 && buffer[2] == '\\' && buffer[3] == 'n' {
        helpString := helpString + "\n";
        helpString := helpString + buffer[4..];
      } else {
        helpString := helpString + buffer[2..];
      }
      ghost var next := rest;
      at := next;
      line := GetLine(rest);
      buffer, rest := line.0, line.1;
    }
    ReadStep(at);
    assert !IsHelp(buffer);
  }

  // ----- reading back what was written

  /** What is read back of a chunk. */
  function Kept(c: string): string {
    if c != "" && c[0] == '\n' then "\n" + Clean(c[1..]) else Clean(c)
  }

  function AllKept(cs: seq<string>): string {
    if cs == [] then "" else Kept(cs[0]) + AllKept(cs[1..])
  }

  /** A chunk that is read back on its own: a newline can only begin it, and it does not
      begin with the two characters that stand for a newline. */
  ghost predicate IsChunk(c: string) {
    && c != "" && '\n' !in c[1..] && !("\\n" <= c)
  }

  lemma FindIs(s: string, c: char, n: nat)
    requires n <= |s| && c !in s[..n] && (n < |s| ==> s[n] == c)
    ensures Find(s, c) == n
  {
    var m := Find(s, c);
    forall q | 0 <= q < n
      ensures s[q] != c
    {
      assert s[..n][q] in s[..n];
    }
    forall q | 0 <= q < m
      ensures s[q] != c
    {
      assert s[..m][q] in s[..m];
    }
  }

  lemma GetLineOf(a: string, rest: string)
    requires '\n' !in a
    ensures GetLine(a + "\n" + rest) == (Clean(a), rest)
  {
    var fin := a + "\n" + rest;
    assert fin[..|a|] == a && fin[|a| + 1..] == rest;
    FindIs(fin, '\n', |a|);
  }

  /** Cleaning does not touch a beginning without special characters. */
  lemma CleanAfter(a: string, b: string)
    requires '\0' !in a && '\r' !in a
    ensures Clean(a + b) == a + Clean(b)
  {
    var t := if b != "" && b[|b| - 1] == '\r' then b[..|b| - 1] else b;
    var n := Find(t, '\0');
    assert (a + t)[..|a| + n] == a + t[..n];
    FindIs(a + t, '\0', |a| + n);
    if b != "" {
      assert (a + b)[|a + b| - 1] == b[|b| - 1];
      assert b[|b| - 1] == '\r' ==> (a + b)[..|a + b| - 1] == a + t;
    } else {
      assert a + b == a && a + t == a;
    }
  }

  lemma ReadComment(body: string, rest: string)
    requires '\n' !in body
    ensures ReadBack("//" + body + "\n" + rest) == (Content(Clean(body)) + ReadBack(rest).0, ReadBack(rest).1)
  {
    hide GetLine, ReadBack, Content, Clean;
    var fin := "//" + body + "\n" + rest;
    GetLineOf("//" + body, rest);
    CleanAfter("//", body);
    ReadStep(fin);
    assert ("//" + Clean(body))[2..] == Clean(body);
  }

  lemma ReadLine(c: string, rest: string)
    requires IsChunk(c)
    ensures ReadBack(Line(c) + rest) == (Kept(c) + ReadBack(rest).0, ReadBack(rest).1)
  {
    hide ReadBack;
    var body := if c[0] == '\n' then "\\n" + c[1..] else c;
    assert Line(c) + rest == "//" + body + "\n" + rest;
    ReadComment(body, rest);
    if c[0] == '\n' {
      CleanAfter("\\n", c[1..]);
      assert ("\\n" + Clean(c[1..]))[2..] == Clean(c[1..]);
    } else {
      CleanIsPrefix(c);
    }
  }

  lemma CleanIsPrefix(c: string)
    ensures Clean(c) <= c
  {
  }

  lemma {:induction false} ReadLines(cs: seq<string>, rest: string)
    requires forall c :: c in cs ==> IsChunk(c)
    ensures ReadBack(Lines(cs) + rest).0 == AllKept(cs) + ReadBack(rest).0
    ensures ReadBack(Lines(cs) + rest).1 == ReadBack(rest).1
  {
    hide ReadBack, Line, Kept, IsChunk;
    if cs == [] {
      assert Lines(cs) + rest == rest;
    } else {
      assert Lines(cs) + rest == Line(cs[0]) + (Lines(cs[1..]) + rest);
      ReadLine(cs[0], Lines(cs[1..]) + rest);
      ReadLines(cs[1..], rest);
      assert Kept(cs[0]) + (AllKept(cs[1..]) + ReadBack(rest).0) == AllKept(cs) + ReadBack(rest).0;
    }
  }

  // ----- which texts survive

  /** Nothing in the chunk is lost by cleaning. */
  ghost predicate IsKept(c: string) {
    c != "" && '\0' !in c && c[|c| - 1] != '\r'
  }

  lemma KeptIs(c: string)
    requires IsChunk(c)
    ensures Kept(c) == c <==> IsKept(c)
    ensures |Kept(c)| <= |c|
    ensures c[0] == '\n' ==> Kept(c) != "" && Kept(c)[0] == '\n'
  {
    if c[0] == '\n' {
      CleanIs(c[1..]);
      assert c == "\n" + c[1..];
      assert '\0' in c <==> '\0' in c[1..];
    } else {
      CleanIs(c);
    }
  }

  lemma CleanIs(s: string)
    ensures Clean(s) == s <==> '\0' !in s && (s == "" || s[|s| - 1] != '\r')
    ensures |Clean(s)| <= |s|
  {
    if '\0' !in s { FindIs(s, '\0', |s|); }
  }

  lemma {:induction false} AllKeptIs(cs: seq<string>)
    requires forall c :: c in cs ==> IsChunk(c)
    ensures |AllKept(cs)| <= |Concat(cs)|
    ensures AllKept(cs) == Concat(cs) <==> forall c :: c in cs ==> IsKept(c)
  {
    hide Kept, IsKept, IsChunk;
    if cs != [] {
      var c, rest := cs[0], cs[1..];
      KeptIs(c);
      AllKeptIs(rest);
      if AllKept(cs) == Concat(cs) {
        assert |Kept(c)| == |c|;
        assert Kept(c) == AllKept(cs)[..|c|] && c == Concat(cs)[..|c|];
        assert AllKept(rest) == AllKept(cs)[|c|..] && Concat(rest) == Concat(cs)[|c|..];
      }
    }
  }

  /** The chunks make up the text, and all of them but the first begin with a newline
      or a space. */
  lemma {:induction false} ChunksAre(s: string)
    ensures Concat(Chunks(s)) == s
    ensures forall c :: c in Chunks(s) ==> c != "" && '\n' !in c[1..]
    ensures forall k :: 0 < k < |Chunks(s)| ==>
      Chunks(s)[k] != "" && (Chunks(s)[k][0] == '\n' || Chunks(s)[k][0] == ' ')
    ensures s != "" ==> |Chunks(s)| > 0 && Chunks(s)[0] != "" && Chunks(s)[0] == s[..|Chunks(s)[0]|]
    ensures "\\n" <= s ==> "\\n" <= Chunks(s)[0]
    decreases |s|
  {
    if s != "" {
      var n := NextBreak(s, 1);
      ChunksAre(s[n..]);
      assert s == s[..n] + s[n..];
      forall j | 0 < j < n
        ensures s[j] != '\n'
      {
        assert !IsBreak(s, j);
      }
      if |s| > n {
        assert Chunks(s)[1] == Chunks(s[n..])[0];
        assert s[n..][0] == s[n];
      }
    }
  }

  /** No carriage return or null character where the reader drops it, and a first
      character, or two, that the writer and the reader agree on. */
  ghost predicate Survives(s: string) {
    s == "" || (s[0] != '\n' && !("\\n" <= s) && forall c :: c in Chunks(s) ==> IsKept(c))
  }

  function Newlines(s: string): nat {
    if s == "" then 0 else (if s[0] == '\n' then 1 else 0) + Newlines(s[1..])
  }

  lemma {:induction false} NewlinesAdd(a: string, b: string)
    ensures Newlines(a + b) == Newlines(a) + Newlines(b)
  {
    if a == "" {
      assert a + b == b;
    } else {
      assert (a + b)[1..] == a[1..] + b;
      NewlinesAdd(a[1..], b);
    }
  }

  lemma {:induction false} NoNewlines(s: string)
    requires '\n' !in s
    ensures Newlines(s) == 0
  {
    if s != "" { NoNewlines(s[1..]); }
  }

  lemma {:induction false} KeptNewlines(cs: seq<string>)
    requires forall c :: c in cs ==> IsChunk(c)
    ensures Newlines(AllKept(cs)) == Newlines(Concat(cs))
  {
    hide IsChunk, Kept, Clean;
    if cs != [] {
      KeptNewlines(cs[1..]);
      OneKept(cs[0]);
      NewlinesAdd(Kept(cs[0]), AllKept(cs[1..]));
      NewlinesAdd(cs[0], Concat(cs[1..]));
    }
  }

  lemma OneKept(c: string)
    requires IsChunk(c)
    ensures Newlines(Kept(c)) == Newlines(c)
  {
    hide Clean;
    CleanIsPrefix(c[1..]);
    CleanIsPrefix(c);
    NoNewlines(c[1..]);
    NoNewlines(Clean(c[1..]));
    if c[0] == '\n' {
      assert ("\n" + Clean(c[1..]))[1..] == Clean(c[1..]);
    } else {
      NoNewlines(c);
      NoNewlines(Clean(c));
    }
  }

  lemma ContentNewlines(body: string)
    requires '\n' !in body
    ensures Newlines(Content(Clean(body))) <= 1
    ensures "\\n" <= body ==> Newlines(Content(Clean(body))) == 1
  {
    hide Clean;
    CleanIsPrefix(body);
    var line := Clean(body);
    if "\\n" <= body {
      assert body == "\\n" + body[2..];
      CleanAfter("\\n", body[2..]);
    }
    if "\\n" <= line {
      NoNewlines(line[2..]);
      assert ("\n" + line[2..])[1..] == line[2..];
    } else {
      NoNewlines(line);
    }
  }

  /** Reading lines that were not written as comments: it ends among them, or goes on
      to what follows. */
  lemma {:induction false} ReadRaw(t: string, rest: string) returns (head: string, through: bool)
    ensures through ==> ReadBack(t + "\n" + rest).0 == head + ReadBack(rest).0
    ensures !through ==> Newlines(ReadBack(t + "\n" + rest).0) <= Newlines(t)
    decreases |t|
  {
    hide GetLine, ReadBack, Content, Clean, Newlines, IsHelp;
    var n := Find(t, '\n');
    var a := t[..n];
    var after := if n < |t| then t[n + 1..] + "\n" + rest else rest;
    FirstRawLine(t, rest, n);
    GetLineOf(a, after);
    ReadStep(a + "\n" + after);
    head, through := "", false;
    if IsHelp(Clean(a)) {
      HelpLine(a);
      ContentNewlines(a[2..]);
      var first := Content(Clean(a[2..]));
      if n < |t| {
        head, through := ReadRaw(t[n + 1..], rest);
        AddHead(first, head, ReadBack(rest).0);
        head := first + head;
        NewlinesAdd(first, ReadBack(after).0);
      } else {
        head, through := first, true;
      }
    } else {
      NoNewlines("");
    }
  }

  lemma AddHead(first: string, head: string, read: string)
    ensures first + (head + read) == (first + head) + read
  {
  }

  lemma HelpLine(a: string)
    requires IsHelp(Clean(a))
    ensures 2 <= |a| && 2 <= |Clean(a)| && Clean(a)[2..] == Clean(a[2..])
  {
    CleanIsPrefix(a);
    assert a == "//" + a[2..];
    CleanAfter("//", a[2..]);
  }

  lemma SplitAt(t: string, n: nat)
    requires n < |t| && t[n] == '\n'
    ensures t == t[..n] + "\n" + t[n + 1..]
  {
  }

  lemma LinesJoin(a: string, b: string, c: string)
    ensures a + "\n" + b + "\n" + c == a + "\n" + (b + "\n" + c)
  {
  }

  lemma FirstRawLine(t: string, rest: string, n: nat)
    requires n == Find(t, '\n')
    ensures t + "\n" + rest == t[..n] + "\n" + (if n < |t| then t[n + 1..] + "\n" + rest else rest)
    ensures n < |t| ==> Newlines(t) == 1 + Newlines(t[n + 1..])
  {
    hide Find, Newlines;
    if n < |t| {
      var a, b := t[..n], t[n + 1..];
      SplitAt(t, n);
      NewlinesAdd(a + "\n", b);
      NewlinesAdd(a, "\n");
      NoNewlines(a);
      OneNewline();
      LinesJoin(a, b, rest);
    } else {
      assert t[..n] == t;
    }
  }

  /** The text is written a second time, and all its newlines are read. */
  lemma SecondTime(s: string, entry: string)
    requires s != "" && s[0] == '\n'
    ensures Newlines(ReadBack(Lines(Chunks(s)) + entry).0) >= Newlines(s)
  {
    hide ReadBack, Chunks, IsChunk, Newlines;
    ChunksAre(s);
    AreChunks(s);
    ReadLines(Chunks(s), entry);
    KeptNewlines(Chunks(s));
    NewlinesAdd(AllKept(Chunks(s)), ReadBack(entry).0);
  }

  lemma RawNewlines(t: string, rest: string)
    ensures var read := Newlines(ReadBack("//" + "\\n" + t + "\n" + rest).0);
      read <= Newlines(t) || read >= 1 + Newlines(ReadBack(rest).0)
  {
    hide GetLine, ReadBack, Content, Clean, Newlines;
    var n := Find(t, '\n');
    var a := t[..n];
    ContentNewlines("\\n" + a);
    var first := Content(Clean("\\n" + a));
    if n < |t| {
      var b := t[n + 1..];
      var after := b + "\n" + rest;
      assert t == a + ("\n" + b);
      NewlinesAdd(a, "\n" + b);
      NewlinesAdd("\n", b);
      OneNewline();
      NoNewlines(a);
      assert "//" + "\\n" + t + "\n" + rest == "//" + ("\\n" + a) + "\n" + after;
      ReadComment("\\n" + a, after);
      NewlinesAdd(first, ReadBack(after).0);
      var head, through := ReadRaw(b, rest);
      if through { NewlinesAdd(head, ReadBack(rest).0); }
    } else {
      assert "//" + "\\n" + t + "\n" + rest == "//" + ("\\n" + a) + "\n" + rest;
      ReadComment("\\n" + a, rest);
      NewlinesAdd(first, ReadBack(rest).0);
    }
  }

  /** A text that begins with a newline gains newlines or loses some. */
  lemma NewlineFirst(s: string, entry: string)
    requires s != "" && s[0] == '\n'
    ensures Newlines(ReadBack(Written(s) + entry).0) != Newlines(s)
  {
    hide ReadBack, Lines, Chunks, Newlines;
    var again := Lines(Chunks(s)) + entry;
    SecondTime(s, entry);
    RawNewlines(s[1..], again);
    assert Written(s) + entry == "//" + "\\n" + s[1..] + "\n" + again;
    assert s == "\n" + s[1..];
    NewlinesAdd("\n", s[1..]);
    OneNewline();
  }

  lemma OneNewline()
    ensures Newlines("\n") == 1
  {
    assert "\n"[1..] == "";
  }

  lemma AreChunks(s: string)
    requires !("\\n" <= s)
    ensures forall c :: c in Chunks(s) ==> IsChunk(c)
  {
    ChunksAre(s);
    forall k | 0 <= k < |Chunks(s)|
      ensures IsChunk(Chunks(s)[k])
    {
    }
  }

  lemma BackslashRead(c: string, rest: string)
    requires "\\n" <= c && '\n' !in c[1..]
    ensures var read := ReadBack("//" + c + "\n" + rest).0; read != "" && read[0] == '\n'
  {
    hide ReadBack, Clean;
    assert c == "\\n" + c[2..];
    assert '\n' !in c by { assert c[0] != '\n' && c == [c[0]] + c[1..]; }
    ReadComment(c, rest);
    CleanAfter("\\n", c[2..]);
  }

  lemma PlainLine(c: string)
    requires "\\n" <= c
    ensures Line(c) == "//" + c + "\n"
  {
  }

  /** The two characters at the beginning are read as a newline. */
  lemma BackslashFirst(s: string, entry: string)
    requires "\\n" <= s
    ensures ReadBack(Written(s) + entry).0 != s
  {
    hide ReadBack, Clean, Chunks, Line;
    ChunksAre(s);
    var c, rest := Chunks(s)[0], Lines(Chunks(s)[1..]) + entry;
    assert Written(s) + entry == Line(c) + rest;
    PlainLine(c);
    BackslashRead(c, rest);
  }

  lemma PlainWritten(s: string)
    ensures s == "" ==> Written(s) == ""
    ensures s != "" && s[0] != '\n' ==> Written(s) == Lines(Chunks(s))
  {
  }

  lemma Empties(a: string, b: string)
    ensures "" + a == a && b + "" == b
  {
  }

  /** What was written is read back exactly when the text survives; reading then stops
      at the entry that follows. */
  lemma HelpRoundTrip(s: string, entry: string)
    requires !IsHelp(GetLine(entry).0)
    ensures ReadBack(Written(s) + entry).0 == s <==> Survives(s)
    ensures Survives(s) ==> ReadBack(Written(s) + entry).1 == entry
  {
    hide ReadBack, GetLine, Chunks, IsKept, IsChunk, Written, Lines, AllKept;
    ReadStep(entry);
    PlainWritten(s);
    Empties(entry, AllKept(Chunks(s)));
    if s == "" {
      assert Written(s) + entry == entry;
    } else if s[0] == '\n' {
      NewlineFirst(s, entry);
    } else if "\\n" <= s {
      BackslashFirst(s, entry);
    } else {
      ChunksAre(s);
      AreChunks(s);
      ReadLines(Chunks(s), entry);
      AllKeptIs(Chunks(s));
    }
  }

  /** Texts without carriage returns: the beginning and null characters decide. */
  lemma PlainHelpRoundTrip(s: string, entry: string)
    requires !IsHelp(GetLine(entry).0) && '\r' !in s
    ensures ReadBack(Written(s) + entry).0 == s <==> s == "" || (s[0] != '\n' && !("\\n" <= s) && '\0' !in s)
  {
    hide ReadBack, GetLine, Chunks;
    HelpRoundTrip(s, entry);
    ChunksAre(s);
    forall c | c in Chunks(s)
      ensures '\r' !in c && ('\0' in c ==> '\0' in s)
    {
      InConcat(Chunks(s), c);
    }
    if '\0' in s { FindInConcat(Chunks(s), '\0'); }
  }

  lemma {:induction false} InConcat(cs: seq<string>, c: string)
    requires c in cs
    ensures forall x :: x in c ==> x in Concat(cs)
  {
    if c != cs[0] { InConcat(cs[1..], c); }
  }

  lemma {:induction false} FindInConcat(cs: seq<string>, x: char)
    requires x in Concat(cs)
    ensures exists c :: c in cs && x in c
  {
    if x !in cs[0] { FindInConcat(cs[1..], x); }
  }

  /** A line is divided only where sixty characters are full, at the next space. */
  lemma {:induction false} ChunksAreFull(s: string)
    ensures forall k, j :: 0 <= k < |Chunks(s)| && 60 <= j < |Chunks(s)[k]| ==> Chunks(s)[k][j] != ' '
    ensures forall k :: 0 < k < |Chunks(s)| && Chunks(s)[k] != "" && Chunks(s)[k][0] == ' ' ==>
      60 <= |Chunks(s)[k - 1]|
    decreases |s|
  {
    if s != "" {
      var n := NextBreak(s, 1);
      ChunksAreFull(s[n..]);
      ChunksAre(s[n..]);
      forall j | 60 <= j < n
        ensures s[j] != ' '
      {
        assert !IsBreak(s, j);
      }
      forall k | 0 < k < |Chunks(s)| && Chunks(s)[k] != "" && Chunks(s)[k][0] == ' '
        ensures 60 <= |Chunks(s)[k - 1]|
      {
        assert Chunks(s)[k] == Chunks(s[n..])[k - 1];
        if k == 1 {
          assert s[n..][0] == s[n];
        } else {
          assert Chunks(s)[k - 1] == Chunks(s[n..])[k - 2];
        }
      }
    }
  }

  /** A short text of one line is one comment. */
  lemma OneLine(s: string)
    requires s != "" && '\n' !in s && |s| <= 60
    ensures Written(s) == "//" + s + "\n"
  {
    OneChunk(s);
    assert [s][1..] == [] && Lines([]) == "";
    assert Lines([s]) == Line(s) + "";
  }

  lemma OneChunk(s: string)
    requires s != "" && '\n' !in s[1..] && |s| <= 60
    ensures Chunks(s) == [s]
  {
    hide Chunks, NextBreak;
    forall j | 1 <= j < |s|
      ensures !IsBreak(s, j)
    {
      assert s[j] == s[1..][j - 1];
    }
    NextBreakIs(s, 1, |s|);
    assert s[..|s|] == s && s[|s|..] == "";
    ChunksUnfold(s);
    ChunksUnfold("");
  }

  lemma ChunksUnfold(s: string)
    ensures Chunks(s) ==
      if s == "" then [] else [s[..NextBreak(s, 1)]] + Chunks(s[NextBreak(s, 1)..])
  {
  }

  /** A newline inside begins the next comment, written as two characters. */
  lemma TwoLines(x: string, y: string)
    requires x != "" && '\n' !in x && '\n' !in y && |x| <= 60 && |y| < 60
    ensures Written(x + "\n" + y) == "//" + x + "\n" + ("//" + "\\n" + y + "\n")
  {
    hide Chunks, NextBreak;
    var s, rest := x + "\n" + y, "\n" + y;
    forall j | 1 <= j < |x|
      ensures !IsBreak(s, j)
    {
      assert s[j] == x[j];
    }
    NextBreakIs(s, 1, |x|);
    assert s[..|x|] == x && s[|x|..] == rest && s[0] == x[0];
    assert rest[1..] == y;
    OneChunk(rest);
    ChunksUnfold(s);
    assert Chunks(s) == [x] + [rest];
    assert ([x] + [rest])[1..] == [rest] && [rest][1..] == [];
    assert Lines([rest]) == Line(rest) + "";
    assert Lines([x] + [rest]) == Line(x) + Lines([rest]);
    assert Line(rest) == "//" + "\\n" + y + "\n";
  }
}
