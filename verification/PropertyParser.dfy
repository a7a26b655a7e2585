/** The property file parser of init: it cuts a NUL-terminated buffer into lines, keys and values in place. */
module PropertyParser {
  import opened Wrappers

  const NUL := '\0'

  datatype Event = Set(key: string, value: string) | Import(file: string, filter: Option<string>)

  // ----- what a file means

  /** `isspace` in the C locale. */
  predicate IsSpace(c: char) {
    c == ' ' || c == '\t' || c == '\n' || c == '\U{0B}' || c == '\U{0C}' || c == '\r'
  }

  /** The space, and the five control characters from tab to carriage return. */
  lemma SpacesAre(c: char)
    ensures IsSpace(c) <==> c == ' ' || '\t' <= c <= '\r'
  {
  }

  function TrimStart(s: string): string {
    if s != [] && IsSpace(s[0]) then TrimStart(s[1..]) else s
  }

  function TrimEnd(s: string): string {
    if s != [] && IsSpace(s[|s| - 1]) then TrimEnd(s[..|s| - 1]) else s
  }

  /** The first place of `c`, or the length. */
  function IndexOf(s: string, c: char): (i: nat)
    ensures i <= |s| && (i < |s| ==> s[i] == c)
    ensures forall j :: 0 <= j < i ==> s[j] != c
  {
    if s == [] || s[0] == c then 0 else 1 + IndexOf(s[1..], c)
  }

  /** No filter, an exact name, or a prefix followed by `*`. */
  predicate Passes(filter: Option<string>, key: string) {
    if filter.None? || filter.value == "" then true
    else
      var n := |filter.value| - 1;
      if filter.value[n] == '*' then filter.value[..n] <= key else filter.value == key
  }

  /** What a filter lets through: a name followed by a star, every key that starts with the name; another name, that key
      alone; nothing, every key. */
  lemma FilterMeans(name: string, key: string)
    ensures Passes(Some(name + "*"), key) <==> exists rest :: key == name + rest
    ensures name != [] && name[|name| - 1] != '*' ==> (Passes(Some(name), key) <==> key == name)
    ensures Passes(None, key) && Passes(Some([]), key)
  {
    var starred := name + "*";
    assert starred[..|starred| - 1] == name && starred[|starred| - 1] == '*';
    if name <= key {
      assert key == name + key[|name|..];
    }
  }

  /** The filter selects something. */
  predicate Selects(filter: Option<string>) {
    filter.Some? && filter.value != ""
  }

  /** What a pair causes. */
  function Chosen(key: string, value: string, filter: Option<string>): seq<Event> {
    if Passes(filter, key) then [Set(key, value)] else []
  }

  function ParsePair(t: string, filter: Option<string>): seq<Event> {
    var v := IndexOf(t, '=');
    if v == |t| then [] else Chosen(TrimEnd(t[..v]), TrimStart(t[v + 1..]), filter)
  }

  /** What an import line means, from the file's name on. */
  function ImportOf(rest: string): seq<Event> {
    var j := IndexOf(rest, ' ');
    if j == |rest| then [Import(rest, None)] else [Import(rest[..j], Some(TrimStart(rest[j + 1..])))]
  }

  /** A line without the spaces around it. */
  function ParseTrimmed(t: string, filter: Option<string>): seq<Event> {
    if "import " <= t && !Selects(filter) then ImportOf(TrimStart(t[7..])) else ParsePair(t, filter)
  }

  function ParseLine(line: string, filter: Option<string>): seq<Event> {
    var t := TrimEnd(TrimStart(line));
    if "#" <= t then [] else ParseTrimmed(t, filter)
  }

  /** The end of the line that starts at `i`: its newline, the terminator, or the end of the buffer. */
  function FindEnd(text: string, i: nat): (e: nat)
    requires i <= |text|
    ensures i <= e <= |text| && forall j :: i <= j < e ==> text[j] != NUL && text[j] != '\n'
    decreases |text| - i
  {
    if i < |text| && text[i] != '\n' && text[i] != NUL then FindEnd(text, i + 1) else i
  }

  /** The lines from `i` on, each read by `f`; a line counts once its newline is there. */
  function Lines(text: string, i: nat, f: string -> seq<Event>): seq<Event>
    requires i <= |text|
    decreases |text| - i
  {
    var e := FindEnd(text, i);
    if e < |text| && text[e] == '\n' then f(text[i..e]) + Lines(text, e + 1, f) else []
  }

  function ParseFile(text: string, filter: Option<string>): seq<Event> {
    Lines(text, 0, line => ParseLine(line, filter))
  }

  // ----- rendering

  predicate Blank(s: string) {
    forall c :: c in s ==> IsSpace(c) && c != '\n'
  }

  predicate OneLine(s: string) {
    '\n' !in s && NUL !in s
  }

  /** Text that starts and ends with something other than a space, or is empty. */
  predicate Trimmed(s: string) {
    s == [] || (!IsSpace(s[0]) && !IsSpace(s[|s| - 1]))
  }

  datatype Entry =
    | Empty(blanks: string)
    | Comment(before: string, text: string)
    | Pair(before: string, key: string, left: string, right: string, value: string, after: string)
    | Directive(before: string, gap: string, file: string, under: Option<Under>, after: string)

  /** The filter of an import, and the blanks after the space in front of it. */
  datatype Under = Under(blanks: string, filter: string)

  predicate WellFormed(e: Entry) {
    match e
    case Empty(b) => Blank(b)
    case Comment(b, text) => Blank(b) && OneLine(text)
    case Pair(b, key, l, r, value, a) =>
      && Blank(b) && Blank(l) && Blank(r) && Blank(a)
      && key != [] && Trimmed(key) && OneLine(key) && '=' !in key && key[0] != '#'
      && Trimmed(value) && OneLine(value)
    case Directive(b, gap, file, under, a) =>
      && Blank(b) && Blank(gap) && Blank(a) && Word(file) && ' ' !in file
      && (under.Some? ==> Blank(under.value.blanks) && Word(under.value.filter))
  }

  predicate Word(s: string) {
    s != [] && Trimmed(s) && OneLine(s) && '=' !in s
  }

  function Render(e: Entry): string {
    match e
    case Empty(b) => b
    case Comment(b, text) => b + "#" + text
    case Pair(b, key, l, r, value, a) => b + (key + l + "=" + (r + value)) + a
    case Directive(b, gap, file, under, a) => b + ("import " + (gap + (file + Tail(under)))) + a
  }

  function Tail(under: Option<Under>): string {
    if under.None? then [] else " " + (under.value.blanks + under.value.filter)
  }

  function RenderAll(es: seq<Entry>): string {
    if es == [] then [] else Render(es[0]) + "\n" + RenderAll(es[1..])
  }

  /** A pair counts if it passes the filter, an import only if there is none. */
  function Meaning(e: Entry, filter: Option<string>): seq<Event> {
    match e
    case Pair(_, key, _, _, value, _) => Chosen(key, value, filter)
    case Directive(_, _, file, under, _) =>
      if Selects(filter) then []
      else [Import(file, if under.None? then None else Some(under.value.filter))]
    case _ => []
  }

  /** What the entries mean, in order. */
  function Expected(es: seq<Entry>, filter: Option<string>): seq<Event> {
    if es == [] then [] else Meaning(es[0], filter) + Expected(es[1..], filter)
  }

  lemma {:induction false} TrimStartBlank(b: string, s: string)
    requires Blank(b)
    ensures TrimStart(b + s) == TrimStart(s)
  {
    if b == [] {
      assert b + s == s;
    } else {
      assert (b + s)[1..] == b[1..] + s;
      TrimStartBlank(b[1..], s);
    }
  }

  lemma {:induction false} TrimEndBlank(s: string, b: string)
    requires Blank(b)
    ensures TrimEnd(s + b) == TrimEnd(s)
  {
    if b == [] {
      assert s + b == s;
    } else {
      var n := |b| - 1;
      assert b[n] in b;
      assert (s + b)[..|s + b| - 1] == s + b[..n];
      TrimEndBlank(s, b[..n]);
    }
  }

  lemma {:induction false} IndexAfter(a: string, c: char, s: string)
    requires c !in a
    ensures IndexOf(a + [c] + s, c) == |a|
  {
    if a != [] {
      assert (a + [c] + s)[1..] == a[1..] + [c] + s;
      IndexAfter(a[1..], c, s);
    }
  }

  /** What is left of a pair's line once both its ends are trimmed. */
  function Middle(e: Entry): string
    requires e.Pair?
  {
    e.key + e.left + "=" + if e.value == [] then [] else e.right + e.value
  }

  lemma LineTrimmed(e: Entry)
    requires e.Pair? && WellFormed(e)
    ensures TrimEnd(TrimStart(Render(e))) == Middle(e)
  {
    var middle := e.key + e.left + "=" + (e.right + e.value);
    assert Render(e) == e.before + (middle + e.after);
    TrimStartBlank(e.before, middle + e.after);
    assert (middle + e.after)[0] == e.key[0];
    TrimEndBlank(middle, e.after);
    if e.value == [] {
      assert middle == (e.key + e.left + "=") + e.right;
      TrimEndBlank(e.key + e.left + "=", e.right);
    }
  }

  /** The start of a pair's line is that of an import: its key is `import` with a space behind it, or goes on so. */
  predicate StartsImport(e: Entry)
    requires e.Pair?
  {
    "import " <= e.key + e.left + "="
  }

  lemma StartIs(e: Entry, t: string)
    requires e.Pair? && WellFormed(e) && e.key + e.left + "=" <= t
    ensures !("#" <= t) && ("import " <= t <==> StartsImport(e))
  {
    var word, start := "import ", e.key + e.left + "=";
    assert t[0] == e.key[0];
    if |start| < |word| {
      assert t[|start| - 1] == '=' != word[|start| - 1];
    } else {
      assert t[..|word|] == start[..|word|];
    }
  }

  /** A pair, however it is spaced and whatever its value contains, parses to itself if and only if there is a filter or
      its line does not start like an import. It gives as many events as it should in any case. */
  lemma PairParsesIff(e: Entry, filter: Option<string>)
    requires e.Pair? && WellFormed(e)
    ensures ParseLine(Render(e), filter) == Meaning(e, filter) <==> Selects(filter) || !StartsImport(e)
    ensures |ParseLine(Render(e), filter)| == |Meaning(e, filter)|
  {
    PairLine(e, Middle(e), filter);
    PairSplit(e, Middle(e), filter);
  }

  /** A pair's line is an import line or a pair line. */
  lemma PairLine(e: Entry, t: string, filter: Option<string>)
    requires e.Pair? && WellFormed(e) && t == Middle(e)
    ensures !Selects(filter) && StartsImport(e) ==>
              |t| >= 7 && ParseLine(Render(e), filter) == ImportOf(TrimStart(t[7..]))
    ensures Selects(filter) || !StartsImport(e) ==> ParseLine(Render(e), filter) == ParsePair(t, filter)
  {
    LineTrimmed(e);
    StartIs(e, t);
  }

  /** `import = x` is taken for the import of a file called `=`, `import=x` for what it is. */
  lemma ImportKeys(spaced: Entry, tight: Entry, filter: Option<string>)
    requires spaced == Pair([], "import", " ", " ", "x", []) && tight == Pair([], "import", [], [], "x", [])
    requires filter.None?
    ensures WellFormed(spaced) && ParseLine(Render(spaced), filter) == [Import("=", Some("x"))]
    ensures WellFormed(tight) && ParseLine(Render(tight), filter) == [Set("import", "x")]
  {
    SpacedKey(spaced, Middle(spaced), filter);
    TightKey(tight, tight.key + tight.left + "=");
    PairParsesIff(tight, filter);
  }

  lemma TightKey(e: Entry, start: string)
    requires e.Pair? && e.key == "import" && e.left == [] && start == e.key + e.left + "="
    ensures !StartsImport(e)
  {
    assert start[6] == '=';
  }

  lemma SpacedKey(e: Entry, t: string, filter: Option<string>)
    requires e == Pair([], "import", " ", " ", "x", []) && t == Middle(e) && filter.None?
    ensures WellFormed(e) && ParseLine(Render(e), filter) == [Import("=", Some("x"))]
  {
    SpacedMiddle(e, t);
    PairLine(e, t, filter);
    FileCalledEquals(t[7..]);
  }

  lemma SpacedMiddle(e: Entry, t: string)
    requires e == Pair([], "import", " ", " ", "x", []) && t == Middle(e)
    ensures StartsImport(e) && |t| > 7 && t[7..] == "=" + [' '] + "x"
  {
    assert (e.key + e.left + "=")[..7] == "import ";
  }

  lemma FileCalledEquals(rest: string)
    requires rest == "=" + [' '] + "x"
    ensures ImportOf(TrimStart(rest)) == [Import("=", Some("x"))]
  {
    IndexAfter("=", ' ', "x");
    assert rest[..1] == "=" && rest[2..] == "x";
  }

  lemma PairSplit(e: Entry, t: string, filter: Option<string>)
    requires e.Pair? && WellFormed(e)
    requires t == Middle(e)
    ensures ParsePair(t, filter) == Meaning(e, filter)
  {
    var name, rest := e.key + e.left, if e.value == [] then [] else e.right + e.value;
    assert '=' !in name;
    assert t == name + ['='] + rest;
    IndexAfter(name, '=', rest);
    assert t[..|name|] == name && t[|name| + 1..] == rest;
    TrimEndBlank(e.key, e.left);
    TrimStartBlank(e.right, e.value);
  }

  lemma TrimAround(b: string, t: string, a: string)
    requires Blank(b) && Blank(a) && t != [] && Trimmed(t)
    ensures TrimEnd(TrimStart(b + t + a)) == t
  {
    assert b + t + a == b + (t + a);
    TrimStartBlank(b, t + a);
    assert (t + a)[0] == t[0];
    TrimEndBlank(t, a);
  }

  /** The part of an import line between its ends. */
  function Body(e: Entry): string
    requires e.Directive?
  {
    "import " + (e.gap + (e.file + Tail(e.under)))
  }

  lemma BodyEnds(e: Entry, t: string, last: string)
    requires e.Directive? && WellFormed(e) && t == Body(e)
    requires last == if e.under.None? then e.file else e.under.value.filter
    ensures t != [] && Trimmed(t)
  {
    assert t[0] == 'i' && t[|t| - 1] == last[|last| - 1];
  }

  lemma BodyHasNoEquals(e: Entry)
    requires e.Directive? && WellFormed(e)
    ensures '=' !in Body(e)
  {
    assert '=' !in e.gap && '=' !in Tail(e.under);
  }

  lemma DirectiveRest(e: Entry, rest: string)
    requires e.Directive? && WellFormed(e) && rest == e.file + Tail(e.under)
    ensures ImportOf(rest) == [Import(e.file, if e.under.None? then None else Some(e.under.value.filter))]
  {
    if e.under.Some? {
      var u := e.under.value;
      assert rest == e.file + [' '] + (u.blanks + u.filter);
      IndexAfter(e.file, ' ', u.blanks + u.filter);
      assert rest[..|e.file|] == e.file && rest[|e.file| + 1..] == u.blanks + u.filter;
      TrimStartBlank(u.blanks, u.filter);
    } else {
      assert rest == e.file;
      NotFound(e.file, ' ');
    }
  }

  lemma {:induction false} NotFound(s: string, c: char)
    requires c !in s
    ensures IndexOf(s, c) == |s|
  {
    if s != [] {
      NotFound(s[1..], c);
    }
  }

  lemma BodyParses(e: Entry, filter: Option<string>)
    requires e.Directive? && WellFormed(e) && !Selects(filter)
    ensures ParseTrimmed(Body(e), filter) == Meaning(e, filter)
  {
    var t, rest := Body(e), e.file + Tail(e.under);
    assert t[..7] == "import " && t[7..] == e.gap + rest;
    TrimStartBlank(e.gap, rest);
    assert rest[0] == e.file[0];
    DirectiveRest(e, rest);
  }

  lemma BodyIgnored(e: Entry, filter: Option<string>)
    requires e.Directive? && WellFormed(e) && Selects(filter)
    ensures ParseTrimmed(Body(e), filter) == []
  {
    BodyHasNoEquals(e);
    NotFound(Body(e), '=');
  }

  lemma DirectiveLine(e: Entry, t: string, filter: Option<string>)
    requires e.Directive? && WellFormed(e) && t == Body(e)
    ensures ParseLine(Render(e), filter) == ParseTrimmed(t, filter)
  {
    assert t[0] == 'i';
    assert TrimEnd(TrimStart(Render(e))) == t by {
      BodyEnds(e, t, if e.under.None? then e.file else e.under.value.filter);
      TrimAround(e.before, t, e.after);
    }
  }

  /** An import, however spaced, parses to its file and filter, and is ignored under a filter. */
  lemma DirectiveParses(e: Entry, filter: Option<string>)
    requires e.Directive? && WellFormed(e)
    ensures ParseLine(Render(e), filter) == Meaning(e, filter)
  {
    DirectiveLine(e, Body(e), filter);
    if Selects(filter) {
      BodyIgnored(e, filter);
    } else {
      BodyParses(e, filter);
    }
  }

  /** The entry is not a pair that is taken for an import. */
  predicate Plain(e: Entry, filter: Option<string>) {
    e.Pair? ==> Selects(filter) || !StartsImport(e)
  }

  lemma EntryParsesIff(e: Entry, filter: Option<string>)
    requires WellFormed(e)
    ensures ParseLine(Render(e), filter) == Meaning(e, filter) <==> Plain(e, filter)
    ensures |ParseLine(Render(e), filter)| == |Meaning(e, filter)|
  {
    match e
    case Empty(b) =>
      TrimStartBlank(b, []);
      assert b + [] == b;
    case Comment(b, text) =>
      CommentKept(text);
      assert b + "#" + text == b + ("#" + text);
      TrimStartBlank(b, "#" + text);
    case Pair(_, _, _, _, _, _) => PairParsesIff(e, filter);
    case Directive(_, _, _, _, _) => DirectiveParses(e, filter);
  }

  lemma {:induction false} CommentKept(text: string)
    ensures "#" <= TrimEnd("#" + text)
  {
    if text != [] && IsSpace(text[|text| - 1]) {
      assert ("#" + text)[..|text|] == "#" + text[..|text| - 1];
      CommentKept(text[..|text| - 1]);
    }
  }

  lemma EntryIsOneLine(e: Entry)
    requires WellFormed(e)
    ensures OneLine(Render(e))
  {
    match e
    case Empty(b) => BlankIsOneLine(b);
    case Comment(b, text) =>
      BlankIsOneLine(b);
      assert OneLine(b + "#");
    case Pair(b, key, l, r, value, a) =>
      BlankIsOneLine(b);
      BlankIsOneLine(l);
      BlankIsOneLine(r);
      BlankIsOneLine(a);
      assert OneLine(key + l) && OneLine(r + value);
      assert OneLine(key + l + "=" + (r + value));
    case Directive(b, gap, file, under, a) =>
      BlankIsOneLine(b);
      BlankIsOneLine(gap);
      BlankIsOneLine(a);
      TailIsOneLine(under);
      assert OneLine(file + Tail(under));
      assert OneLine("import " + (gap + (file + Tail(under))));
  }

  lemma BlankIsOneLine(b: string)
    requires Blank(b)
    ensures OneLine(b)
  {
  }

  lemma TailIsOneLine(under: Option<Under>)
    requires under.Some? ==> Blank(under.value.blanks) && Word(under.value.filter)
    ensures OneLine(Tail(under))
  {
    if under.Some? {
      BlankIsOneLine(under.value.blanks);
      assert OneLine(under.value.blanks + under.value.filter);
    }
  }

  lemma {:induction false} LineEndsAt(text: string, i: nat, e: nat)
    requires i <= e < |text| && text[e] == '\n' && forall j :: i <= j < e ==> text[j] != NUL && text[j] != '\n'
    ensures FindEnd(text, i) == e
    decreases e - i
  {
    if i < e {
      LineEndsAt(text, i + 1, e);
    }
  }

  lemma LineThere(text: string, i: nat, line: string, rest: string)
    requires i <= |text| && OneLine(line) && text[i..] == line + ['\n'] + rest
    ensures var e := i + |line|;
            e < |text| && text[e] == '\n' && text[i..e] == line && text[e + 1..] == rest && FindEnd(text, i) == e
  {
    var e, s := i + |line|, text[i..];
    assert forall j :: 0 <= j < |s| ==> s[j] == text[i + j];
    forall j | i <= j < e
      ensures text[j] != NUL && text[j] != '\n'
    {
      assert text[j] == s[j - i] == line[j - i] && line[j - i] in line;
    }
    assert text[e] == s[|line|] == '\n';
    LineEndsAt(text, i, e);
  }

  /** Text behind the last newline is not read. */
  lemma LastLine(text: string, i: nat, tail: string, f: string -> seq<Event>)
    requires i <= |text| && text[i..] == ['\n'] + (tail + [NUL]) && OneLine(tail) && f([]) == []
    ensures Lines(text, i, f) == []
  {
    LineThere(text, i, [], tail + [NUL]);
    TailUnread(text, i + 1, tail, f);
  }

  lemma TailUnread(text: string, i: nat, tail: string, f: string -> seq<Event>)
    requires i <= |text| && text[i..] == tail + [NUL] && OneLine(tail)
    ensures Lines(text, i, f) == []
  {
    var rest := text[i..];
    assert forall j :: 0 <= j < |rest| ==> rest[j] == text[i + j];
    assert forall j :: 0 <= j < |tail| ==> rest[j] == tail[j] != '\n';
    assert rest[|tail|] == NUL;
  }

  lemma NextLine(text: string, i: nat, line: string, rest: string, f: string -> seq<Event>) returns (next: nat)
    requires i <= |text| && OneLine(line) && text[i..] == line + ['\n'] + rest
    ensures i < next <= |text| && text[next..] == rest && Lines(text, i, f) == f(line) + Lines(text, next, f)
  {
    var e := i + |line|;
    LineThere(text, i, line, rest);
    next := e + 1;
    FirstLine(text, i, e, text[i..e], f);
  }

  lemma FirstLine(text: string, i: nat, e: nat, line: string, f: string -> seq<Event>)
    requires i <= e < |text| && e == FindEnd(text, i) && text[e] == '\n' && line == text[i..e]
    ensures Lines(text, i, f) == f(line) + Lines(text, e + 1, f)
  {
  }

  lemma RenderAllSplits(text: string, es: seq<Entry>, end: string)
    requires es != [] && text == RenderAll(es) + end
    ensures text == Render(es[0]) + ['\n'] + (RenderAll(es[1..]) + end)
  {
  }

  /** Sequences made of parts of the same lengths are equal exactly when their parts are. */
  lemma PartsEqualIff<T>(a: seq<T>, rest: seq<T>, b: seq<T>, other: seq<T>)
    requires |a| == |b|
    ensures a + rest == b + other <==> a == b && rest == other
  {
    if a + rest == b + other {
      assert a == (a + rest)[..|a|] && rest == (a + rest)[|a|..];
    }
  }

  /** Every entry is read as what it means. */
  ghost predicate AllMeant(es: seq<Entry>, filter: Option<string>, f: string -> seq<Event>) {
    forall e :: e in es ==> f(Render(e)) == Meaning(e, filter)
  }

  lemma {:induction false} RenderedLines(text: string, i: nat, es: seq<Entry>, tail: string, filter: Option<string>,
                                         f: string -> seq<Event>)
    requires forall e :: e in es ==> OneLine(Render(e)) && |f(Render(e))| == |Meaning(e, filter)|
    requires f([]) == [] && i <= |text| && OneLine(tail) && text[i..] == RenderAll(es) + (['\n'] + (tail + [NUL]))
    ensures Lines(text, i, f) == Expected(es, filter) <==> AllMeant(es, filter, f)
    decreases |es|
  {
    var end := ['\n'] + (tail + [NUL]);
    if es == [] {
      assert text[i..] == end;
      LastLine(text, i, tail, f);
    } else {
      RenderAllSplits(text[i..], es, end);
      var next := NextLine(text, i, Render(es[0]), RenderAll(es[1..]) + end, f);
      RenderedLines(text, next, es[1..], tail, filter, f);
      PartsEqualIff(f(Render(es[0])), Lines(text, next, f), Meaning(es[0], filter), Expected(es[1..], filter));
    }
  }

  /** A rendered file sets exactly the pairs that pass the filter, in order, if and only if there is a filter or no pair
      starts like an import. Whatever stands behind its last newline is not read; loading a file appends one, so that
      nothing does. */
  lemma RenderedFileParsesIff(es: seq<Entry>, tail: string, filter: Option<string>)
    requires (forall e :: e in es ==> WellFormed(e)) && OneLine(tail)
    ensures ParseFile(RenderAll(es) + (['\n'] + (tail + [NUL])), filter) == Expected(es, filter)
            <==> forall e :: e in es ==> Plain(e, filter)
  {
    var text, f := RenderAll(es) + (['\n'] + (tail + [NUL])), (line: string) => ParseLine(line, filter);
    forall e | e in es
      ensures OneLine(Render(e)) && |f(Render(e))| == |Meaning(e, filter)|
      ensures f(Render(e)) == Meaning(e, filter) <==> Plain(e, filter)
    {
      EntryIsOneLine(e);
      EntryParsesIff(e, filter);
    }
    EntryParsesIff(Empty([]), filter);
    assert text[0..] == text;
    RenderedLines(text, 0, es, tail, filter, f);
  }

  // ----- the same by position

  // The source moves pointers through one buffer. These functions say where they stop; the lemmas after them say
  // which strings lie between.

  function SkipTo(text: string, i: nat, e: nat): (k: nat)
    requires i <= e <= |text|
    ensures i <= k <= e && (k < e ==> !IsSpace(text[k]))
    decreases e - i
  {
    if i < e && IsSpace(text[i]) then SkipTo(text, i + 1, e) else i
  }

  function BackTo(text: string, i: nat, e: nat): (k: nat)
    requires i <= e <= |text|
    ensures i <= k <= e
  {
    if i < e && IsSpace(text[e - 1]) then BackTo(text, i, e - 1) else e
  }

  function Find(text: string, i: nat, e: nat, c: char): (v: nat)
    requires i <= e <= |text|
    ensures i <= v <= e && (v < e ==> text[v] == c)
    decreases e - i
  {
    if i < e && text[i] != c then Find(text, i + 1, e, c) else i
  }

  predicate PrefixAt(prefix: string, text: string, i: nat, e: nat)
    requires i <= e <= |text|
  {
    |prefix| <= e - i && forall n :: 0 <= n < |prefix| ==> text[i + n] == prefix[n]
  }

  lemma {:induction false} SkipIs(text: string, i: nat, e: nat)
    requires i <= e <= |text|
    ensures text[SkipTo(text, i, e)..e] == TrimStart(text[i..e])
    decreases e - i
  {
    if i < e && IsSpace(text[i]) {
      assert text[i..e][1..] == text[i + 1..e];
      SkipIs(text, i + 1, e);
    }
  }

  lemma {:induction false} BackIs(text: string, i: nat, e: nat)
    requires i <= e <= |text|
    ensures text[i..BackTo(text, i, e)] == TrimEnd(text[i..e])
    decreases e - i
  {
    if i < e && IsSpace(text[e - 1]) {
      assert text[i..e][..e - i - 1] == text[i..e - 1];
      BackIs(text, i, e - 1);
    }
  }

  lemma {:induction false} FindIs(text: string, i: nat, e: nat, c: char)
    requires i <= e <= |text|
    ensures Find(text, i, e, c) == i + IndexOf(text[i..e], c)
    decreases e - i
  {
    if i < e && text[i] != c {
      assert text[i..e][1..] == text[i + 1..e];
      FindIs(text, i + 1, e, c);
    }
  }

  /** The part of a piece of text before, and the part from, position `j`. */
  lemma Cut(text: string, i: nat, e: nat, j: nat)
    requires i <= j <= e <= |text|
    ensures text[i..e][..j - i] == text[i..j] && text[i..e][j - i..] == text[j..e]
  {
  }

  lemma TrimmedBefore(text: string, i: nat, e: nat, j: nat)
    requires i <= j <= e <= |text|
    ensures text[i..BackTo(text, i, j)] == TrimEnd(text[i..e][..j - i])
  {
    Cut(text, i, e, j);
    BackIs(text, i, j);
  }

  lemma TrimmedFrom(text: string, i: nat, e: nat, j: nat)
    requires i <= j <= e <= |text|
    ensures text[SkipTo(text, j, e)..e] == TrimStart(text[i..e][j - i..])
  {
    Cut(text, i, e, j);
    SkipIs(text, j, e);
  }

  lemma PairIs(t: string, v: nat, key: string, value: string, filter: Option<string>)
    requires v == IndexOf(t, '=') < |t| && key == TrimEnd(t[..v]) && value == TrimStart(t[v + 1..])
    ensures ParsePair(t, filter) == Chosen(key, value, filter)
  {
    var r := ParsePair(t, filter);
    assert r == Chosen(key, TrimStart(t[v + 1..]), filter);
  }

  /** A pair found by position: the key ends at `end`, the value starts at `value`. */
  lemma PairAt(text: string, key: nat, e: nat, v: nat, end: nat, value: nat, filter: Option<string>)
    requires key <= e <= |text| && v == Find(text, key, e, '=') < e
    requires end == BackTo(text, key, v) && value == SkipTo(text, v + 1, e)
    ensures ParsePair(text[key..e], filter) == Chosen(text[key..end], text[value..e], filter)
  {
    FindIs(text, key, e, '=');
    TrimmedBefore(text, key, e, v);
    TrimmedFrom(text, key, e, v + 1);
    PairIs(text[key..e], v - key, text[key..end], text[value..e], filter);
  }

  lemma NoPairAt(text: string, key: nat, e: nat, filter: Option<string>)
    requires key <= e <= |text| && Find(text, key, e, '=') == e
    ensures ParsePair(text[key..e], filter) == []
  {
    FindIs(text, key, e, '=');
  }

  lemma ImportIs(rest: string, j: nat, file: string, filter: string)
    requires j == IndexOf(rest, ' ') < |rest| && file == rest[..j] && filter == TrimStart(rest[j + 1..])
    ensures ImportOf(rest) == [Import(file, Some(filter))]
  {
    var r := ImportOf(rest);
    assert r == [Import(file, Some(TrimStart(rest[j + 1..])))];
  }

  lemma ImportParts(text: string, fn: nat, e: nat, j: nat, filter: nat)
    requires fn <= j < e <= |text| && filter == SkipTo(text, j + 1, e)
    ensures text[fn..j] == text[fn..e][..j - fn] && text[filter..e] == TrimStart(text[fn..e][j - fn + 1..])
  {
    Cut(text, fn, e, j);
    TrimmedFrom(text, fn, e, j + 1);
  }

  /** An import with a filter, found by position. */
  lemma ImportAt(text: string, fn: nat, e: nat, j: nat, filter: nat)
    requires fn <= e <= |text| && j == Find(text, fn, e, ' ') < e && filter == SkipTo(text, j + 1, e)
    ensures ImportOf(text[fn..e]) == [Import(text[fn..j], Some(text[filter..e]))]
  {
    FindIs(text, fn, e, ' ');
    ImportParts(text, fn, e, j, filter);
    ImportIs(text[fn..e], j - fn, text[fn..j], text[filter..e]);
  }

  lemma PlainImportAt(text: string, fn: nat, e: nat)
    requires fn <= e <= |text| && Find(text, fn, e, ' ') == e
    ensures ImportOf(text[fn..e]) == [Import(text[fn..e], None)]
  {
    FindIs(text, fn, e, ' ');
  }

  lemma PrefixAtIs(prefix: string, text: string, i: nat, e: nat)
    requires i <= e <= |text|
    ensures PrefixAt(prefix, text, i, e) <==> prefix <= text[i..e]
  {
    var s := text[i..e];
    assert forall n :: 0 <= n < |s| ==> s[n] == text[i + n];
    if PrefixAt(prefix, text, i, e) {
      assert prefix == s[..|prefix|];
    }
  }

  /** A trimmed line, found by position. */
  lemma LineAt(text: string, sol: nat, eol: nat, key: nat, e: nat, filter: Option<string>)
    requires sol <= eol <= |text| && key == SkipTo(text, sol, eol) && e == BackTo(text, key, eol)
    requires !(key < eol && text[key] == '#')
    ensures ParseLine(text[sol..eol], filter) == ParseTrimmed(text[key..e], filter)
  {
    SkipIs(text, sol, eol);
    BackIs(text, key, eol);
    PrefixAtIs("#", text, key, e);
  }

  lemma CommentAt(text: string, sol: nat, eol: nat, key: nat, filter: Option<string>)
    requires sol <= eol <= |text| && key == SkipTo(text, sol, eol) < eol && text[key] == '#'
    ensures ParseLine(text[sol..eol], filter) == []
  {
    SkipIs(text, sol, eol);
    CommentStays(text[key..eol]);
  }

  lemma CommentStays(t: string)
    requires t != [] && t[0] == '#'
    ensures "#" <= TrimEnd(t)
  {
    assert t == "#" + t[1..];
    CommentKept(t[1..]);
  }

  lemma ImportStart(text: string, key: nat, e: nat, fn: nat)
    requires key + 7 <= e <= |text| && fn == SkipTo(text, key + 7, e)
    ensures text[fn..e] == TrimStart(text[key..e][7..])
  {
    TrimmedFrom(text, key, e, key + 7);
  }

  lemma OneMoreLine(text: string, i: nat, e: nat, done: seq<Event>, line: seq<Event>, f: string -> seq<Event>)
    requires i <= e < |text| && e == FindEnd(text, i) && text[e] == '\n' && line == f(text[i..e])
    ensures done + Lines(text, i, f) == done + line + Lines(text, e + 1, f)
  {
    Joined(done, line, Lines(text, e + 1, f), Lines(text, i, f));
  }

  lemma Joined(done: seq<Event>, line: seq<Event>, rest: seq<Event>, all: seq<Event>)
    requires all == line + rest
    ensures done + all == done + line + rest
  {
  }

  // ----- the parser in place

  /** The buffer still holds `text` from `i` up to a terminator at `e`. */
  ghost predicate Holds(data: array<char>, text: string, i: nat, e: nat)
    reads data
  {
    && i <= e < data.Length == |text| && data[e] == NUL
    && forall j :: i <= j < e ==> data[j] == text[j] != NUL
  }

  /** `while (isspace(*p)) p++`. */
  method SkipSpaces(data: array<char>, i: nat, ghost e: nat, ghost text: string) returns (k: nat)
    requires Holds(data, text, i, e)
    ensures k == SkipTo(text, i, e)
  {
    k := i;
    while IsSpace(data[k])
      invariant i <= k <= e && SkipTo(text, k, e) == SkipTo(text, i, e)
      decreases e - k
    {
      k := k + 1;
    }
  }

  /** `while ((tmp > key) && isspace(*tmp)) *tmp-- = 0`, from the last character before `e`. */
  method TrimBack(data: array<char>, key: nat, e: nat, ghost text: string) returns (end: nat)
    requires Holds(data, text, key, e) && (key < e ==> !IsSpace(text[key]))
    modifies data
    ensures end == BackTo(text, key, e) && Holds(data, text, key, end)
    ensures forall j :: 0 <= j < data.Length && (j < key || e <= j) ==> data[j] == old(data[j])
  {
    end := e;
    while end - 1 > key && IsSpace(data[end - 1])
      invariant key <= end <= e && data[end] == NUL
      invariant forall j :: 0 <= j < data.Length && (j < end || e <= j) ==> data[j] == old(data[j])
      invariant BackTo(text, key, end) == BackTo(text, key, e)
    {
      end := end - 1;
      data[end] := NUL;
    }
  }

  /** `strchr`: the first place of `c` before the terminator, or the terminator. */
  method StrChr(data: array<char>, i: nat, ghost e: nat, c: char, ghost text: string) returns (v: nat)
    requires Holds(data, text, i, e) && c != NUL
    ensures v == Find(text, i, e, c)
  {
    v := i;
    while data[v] != NUL && data[v] != c
      invariant i <= v <= e && Find(text, v, e, c) == Find(text, i, e, c)
      decreases e - v
    {
      v := v + 1;
    }
  }

  /** `strncmp(p, prefix, |prefix|) == 0`. */
  method StartsWith(data: array<char>, i: nat, ghost e: nat, prefix: string, ghost text: string) returns (yes: bool)
    requires Holds(data, text, i, e) && NUL !in prefix
    ensures yes <==> PrefixAt(prefix, text, i, e)
  {
    var n := 0;
    while n < |prefix|
      invariant n <= |prefix| && i + n <= e && forall m :: 0 <= m < n ==> text[i + m] == prefix[m]
    {
      assert prefix[n] in prefix;
      if data[i + n] != prefix[n] {
        return false;
      }
      n := n + 1;
    }
    yes := true;
  }

  /** The strings of the buffer are the strings of the text. */
  lemma SameString(data: array<char>, text: string, i: nat, e: nat)
    requires Holds(data, text, i, e)
    ensures data[i..e] == text[i..e]
  {
  }

  /** The filter test on the key that lies from `key` to `end`. */
  method FilterPasses(data: array<char>, key: nat, end: nat, filter: Option<string>, ghost text: string)
    returns (yes: bool)
    requires Holds(data, text, key, end) && (filter.Some? ==> NUL !in filter.value)
    ensures yes == Passes(filter, text[key..end])
  {
    yes := true;
    if filter.Some? && |filter.value| > 0 {
      var n := |filter.value| - 1;
      if filter.value[n] == '*' {
        PrefixAtIs(filter.value[..n], text, key, end);
        yes := StartsWith(data, key, end, filter.value[..n], text);
      } else {
        SameString(data, text, key, end);
        yes := data[key..end] == filter.value;
      }
    }
  }

  /** The branch for a line that imports another file, from the file's name on. */
  method CutImport(data: array<char>, fn: nat, e: nat, ghost text: string) returns (events: seq<Event>)
    requires Holds(data, text, fn, e)
    modifies data
    ensures events == ImportOf(text[fn..e])
    ensures forall j :: e <= j < data.Length ==> data[j] == old(data[j])
  {
    var space := StrChr(data, fn, e, ' ', text);
    if data[space] == NUL {
      SameString(data, text, fn, e);
      PlainImportAt(text, fn, e);
      return [Import(data[fn..e], None)];
    }
    data[space] := NUL;
    var filter := SkipSpaces(data, space + 1, e, text);
    SameString(data, text, fn, space);
    SameString(data, text, filter, e);
    ImportAt(text, fn, e, space, filter);
    events := [Import(data[fn..space], Some(data[filter..e]))];
  }

  /** The branch for a line that may hold a pair. */
  method CutPair(data: array<char>, key: nat, e: nat, filter: Option<string>, ghost text: string)
    returns (events: seq<Event>)
    requires Holds(data, text, key, e) && (key < e ==> !IsSpace(text[key])) && (filter.Some? ==> NUL !in filter.value)
    modifies data
    ensures events == ParsePair(text[key..e], filter)
    ensures forall j :: e <= j < data.Length ==> data[j] == old(data[j])
  {
    var v := StrChr(data, key, e, '=', text);
    if data[v] == NUL {
      NoPairAt(text, key, e, filter);
      return [];
    }
    data[v] := NUL;
    var end := TrimBack(data, key, v, text);
    var value := SkipSpaces(data, v + 1, e, text);
    var passes := FilterPasses(data, key, end, filter, text);
    SameString(data, text, key, end);
    SameString(data, text, value, e);
    PairAt(text, key, e, v, end, value, filter);
    events := if passes then [Set(data[key..end], data[value..e])] else [];
  }

  method LoadTrimmed(data: array<char>, key: nat, e: nat, filter: Option<string>, ghost text: string)
    returns (events: seq<Event>)
    requires Holds(data, text, key, e) && (key < e ==> !IsSpace(text[key])) && (filter.Some? ==> NUL !in filter.value)
    modifies data
    ensures events == ParseTrimmed(text[key..e], filter)
    ensures forall j :: e <= j < data.Length ==> data[j] == old(data[j])
  {
    PrefixAtIs("import ", text, key, e);
    var isImport := StartsWith(data, key, e, "import ", text);
    if isImport && (filter.None? || filter.value == "") {
      var fn := SkipSpaces(data, key + 7, e, text);
      ImportStart(text, key, e, fn);
      events := CutImport(data, fn, e, text);
    } else {
      events := CutPair(data, key, e, filter, text);
    }
  }

  method LoadLine(data: array<char>, sol: nat, eol: nat, filter: Option<string>, ghost text: string)
    returns (events: seq<Event>)
    requires sol <= eol < data.Length == |text| && (filter.Some? ==> NUL !in filter.value)
    requires forall j :: sol <= j < eol ==> data[j] == text[j] != NUL
    modifies data
    ensures events == ParseLine(text[sol..eol], filter)
    ensures forall j :: eol < j < data.Length ==> data[j] == old(data[j])
  {
    data[eol] := NUL;
    var key := SkipSpaces(data, sol, eol, text);
    if data[key] == '#' {
      CommentAt(text, sol, eol, key, filter);
      return [];
    }
    var e := TrimBack(data, key, eol, text);
    LineAt(text, sol, eol, key, e, filter);
    events := LoadTrimmed(data, key, e, filter, text);
  }

  /** `strchr(sol, '\n')`, stopping at the terminator. */
  method FindLineEnd(data: array<char>, sol: nat, ghost text: string) returns (eol: nat)
    requires sol < data.Length == |text| && data[data.Length - 1] == NUL
    requires forall j :: sol <= j < data.Length ==> data[j] == text[j]
    ensures eol == FindEnd(text, sol) < data.Length
  {
    eol := sol;
    while data[eol] != NUL && data[eol] != '\n'
      invariant sol <= eol < data.Length && FindEnd(text, eol) == FindEnd(text, sol)
      decreases data.Length - eol
    {
      eol := eol + 1;
    }
  }

  /** `f` reads a line as it is read under `filter`. */
  ghost predicate Reads(f: string -> seq<Event>, filter: Option<string>) {
    forall line {:trigger ParseLine(line, filter)} :: f(line) == ParseLine(line, filter)
  }

  /** One turn of the loop over lines. */
  method LoadNext(data: array<char>, sol: nat, eol: nat, done: seq<Event>, filter: Option<string>,
                  ghost text: string, ghost f: string -> seq<Event>)
    returns (events: seq<Event>)
    requires sol <= eol < data.Length == |text| && eol == FindEnd(text, sol) && text[eol] == '\n' && Reads(f, filter)
    requires (filter.Some? ==> NUL !in filter.value) && forall j :: sol <= j < data.Length ==> data[j] == text[j]
    modifies data
    ensures events + Lines(text, eol + 1, f) == done + Lines(text, sol, f)
    ensures forall j :: eol < j < data.Length ==> data[j] == old(data[j])
  {
    var more := LoadLine(data, sol, eol, filter, text);
    OneMoreLine(text, sol, eol, done, more, f);
    events := done + more;
  }

  method LoadLines(data: array<char>, filter: Option<string>, ghost f: string -> seq<Event>)
    returns (events: seq<Event>)
    requires data.Length > 0 && data[data.Length - 1] == NUL && (filter.Some? ==> NUL !in filter.value)
             && Reads(f, filter)
    modifies data
    ensures events == Lines(old(data[..]), 0, f)
  {
    ghost var text := data[..];
    events := [];
    var sol := 0;
    var eol := FindLineEnd(data, sol, text);
    while data[eol] == '\n'
      invariant 0 <= sol <= eol < data.Length && eol == FindEnd(text, sol)
      invariant events + Lines(text, sol, f) == Lines(text, 0, f)
      invariant forall j :: sol <= j < data.Length ==> data[j] == text[j]
      decreases data.Length - sol
    {
      events := LoadNext(data, sol, eol, events, filter, text, f);
      sol := eol + 1;
      eol := FindLineEnd(data, sol, text);
    }
  }

  /** `load_properties`: the buffer is cut up, and the calls made are those the file means. */
  method LoadProperties(data: array<char>, filter: Option<string>) returns (events: seq<Event>)
    requires data.Length > 0 && data[data.Length - 1] == NUL && (filter.Some? ==> NUL !in filter.value)
    modifies data
    ensures events == ParseFile(old(data[..]), filter)
  {
    events := LoadLines(data, filter, line => ParseLine(line, filter));
  }
}
