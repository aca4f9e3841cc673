/**
 Session logs as newline-delimited JSON (src/schemas/rollout-store.schema.ts): the files of a
 store refine a plain map from session to entry sequence.
 */
module Rollout {
  import opened Prelude

  datatype Entry = Entry(
    kind: string, content: Option<string>, toolName: Option<string>, timestamp: Option<string>,
    extra: map<string, string>)

  /** The JSON printer and parser of one line. */
  datatype Codec = Codec(encode: Entry -> string, decode: string -> Option<Entry>)

  /** Printing is injective under parsing, and JSON text holds no raw line break (section 7 of RFC 8259). */
  ghost predicate Lawful(codec: Codec) {
    forall e: Entry ::
      && codec.decode(codec.encode(e)) == Some(e)
      && '\n' !in codec.encode(e)
      && !IsBlank(codec.encode(e))
  }

  // ---------------------------------------------------------------------------
  // Lines
  // ---------------------------------------------------------------------------

  function SplitFrom(piece: string, text: string): seq<string>
    decreases |text|
  {
    if text == "" then [piece]
    else if text[0] == '\n' then [piece] + SplitFrom("", text[1..])
    else SplitFrom(piece + [text[0]], text[1..])
  }

  /** The pieces between line breaks; there is always at least one. */
  function Split(text: string): seq<string> {
    SplitFrom("", text)
  }

  function NonBlank(lines: seq<string>): seq<string> {
    if lines == [] then []
    else (if IsBlank(lines[0]) then [] else [lines[0]]) + NonBlank(lines[1..])
  }

  function LinesOf(text: string): seq<string> {
    NonBlank(Split(text))
  }

  lemma {:induction false} SplitAtBreak(piece: string, a: string, b: string)
    ensures SplitFrom(piece, a + "\n" + b) == SplitFrom(piece, a) + Split(b)
    decreases |a|
  {
    var text := a + "\n" + b;
    if a == "" {
      assert text[1..] == b;
    } else {
      assert text[0] == a[0] && text[1..] == a[1..] + "\n" + b;
      if a[0] == '\n' { SplitAtBreak("", a[1..], b); } else { SplitAtBreak(piece + [a[0]], a[1..], b); }
    }
  }

  lemma {:induction false} SplitOfOneLine(piece: string, line: string)
    requires '\n' !in line
    ensures SplitFrom(piece, line) == [piece + line]
    decreases |line|
  {
    if line == "" {
      assert piece + line == piece;
    } else {
      assert line[0] in line;
      assert piece + [line[0]] + line[1..] == piece + line;
      SplitOfOneLine(piece + [line[0]], line[1..]);
    }
  }

  lemma {:induction false} NonBlankConcat(a: seq<string>, b: seq<string>)
    ensures NonBlank(a + b) == NonBlank(a) + NonBlank(b)
  {
    if a == [] {
      assert a + b == b;
    } else {
      assert (a + b)[1..] == a[1..] + b;
      NonBlankConcat(a[1..], b);
    }
  }

  /** Empty, or ended by a line break. */
  predicate Closed(text: string) {
    text == "" || text[|text| - 1] == '\n'
  }

  lemma LinesOfClosed(text: string)
    requires Closed(text) && text != ""
    ensures LinesOf(text) == LinesOf(text[..|text| - 1])
  {
    var body := text[..|text| - 1];
    assert text == body + "\n" + "";
    SplitAtBreak("", body, "");
    NonBlankConcat(Split(body), [""]);
    assert NonBlank([""]) == [];
  }

  lemma LineAfterBreak(text: string, line: string)
    requires Closed(text) && text != "" && Split(line) == [line] && NonBlank([line]) == [line]
    ensures LinesOf(text + line) == LinesOf(text) + [line]
  {
    var body := text[..|text| - 1];
    assert text + line == body + "\n" + line;
    SplitAtBreak("", body, line);
    NonBlankConcat(Split(body), [line]);
    LinesOfClosed(text);
  }

  /** Writing one more line at the end of a closed text adds exactly that line. */
  lemma AppendedLine(text: string, line: string)
    requires Closed(text) && '\n' !in line && !IsBlank(line)
    ensures LinesOf(text + (line + "\n")) == LinesOf(text) + [line]
    ensures Closed(text + (line + "\n"))
  {
    SplitOfOneLine("", line);
    assert "" + line == line;
    var after := text + (line + "\n");
    assert after[..|after| - 1] == text + line;
    LinesOfClosed(after);
    assert NonBlank([line]) == [line] by { assert [line][1..] == []; }
    if text == "" {
      assert text + line == line;
      assert LinesOf(text) == [];
    } else {
      LineAfterBreak(text, line);
    }
  }

  // ---------------------------------------------------------------------------
  // Reading and writing entries
  // ---------------------------------------------------------------------------

  /** All lines parsed, or None when one of them is not JSON. */
  function ParseAll(codec: Codec, lines: seq<string>): Option<seq<Entry>> {
    if lines == [] then Some([])
    else
      match (codec.decode(lines[0]), ParseAll(codec, lines[1..]))
      case (Some(e), Some(rest)) => Some([e] + rest)
      case _ => None
  }

  function PrintAll(codec: Codec, entries: seq<Entry>): seq<string> {
    if entries == [] then [] else [codec.encode(entries[0])] + PrintAll(codec, entries[1..])
  }

  function Join(lines: seq<string>): string {
    if lines == [] then "" else if |lines| == 1 then lines[0] else lines[0] + "\n" + Join(lines[1..])
  }

  lemma {:induction false} ParseAllConcat(codec: Codec, a: seq<string>, b: seq<string>)
    ensures ParseAll(codec, a + b)
         == match (ParseAll(codec, a), ParseAll(codec, b))
            case (Some(x), Some(y)) => Some(x + y)
            case _ => None
  {
    if a == [] {
      assert a + b == b;
      assert ParseAll(codec, b).Some? ==> [] + ParseAll(codec, b).value == ParseAll(codec, b).value;
    } else {
      assert (a + b)[1..] == a[1..] + b;
      ParseAllConcat(codec, a[1..], b);
      if ParseAll(codec, a).Some? && ParseAll(codec, b).Some? {
        var first := codec.decode(a[0]).value;
        assert [first] + (ParseAll(codec, a[1..]).value + ParseAll(codec, b).value)
            == ([first] + ParseAll(codec, a[1..]).value) + ParseAll(codec, b).value;
      }
    }
  }

  lemma {:induction false} PrintedParses(codec: Codec, entries: seq<Entry>)
    requires Lawful(codec)
    ensures ParseAll(codec, PrintAll(codec, entries)) == Some(entries)
  {
    if entries == [] {
    } else {
      PrintedParses(codec, entries[1..]);
      assert PrintAll(codec, entries)[1..] == PrintAll(codec, entries[1..]);
      assert codec.decode(codec.encode(entries[0])) == Some(entries[0]);
      assert [entries[0]] + entries[1..] == entries;
    }
  }

  lemma {:induction false} JoinedLines(codec: Codec, entries: seq<Entry>)
    requires Lawful(codec)
    ensures LinesOf(Join(PrintAll(codec, entries)) + "\n") == PrintAll(codec, entries)
  {
    if entries == [] {
      LinesOfClosed("\n");
      assert "\n"[..0] == "";
      assert "" + "\n" == "\n";
    } else {
      var line, rest := codec.encode(entries[0]), PrintAll(codec, entries[1..]);
      SplitOfOneLine("", line);
      assert "" + line == line;
      assert NonBlank([line]) == [line] by { assert [line][1..] == []; }
      if |entries| == 1 {
        assert rest == [];
        LinesOfClosed(line + "\n");
        assert (line + "\n")[..|line|] == line;
      } else {
        assert PrintAll(codec, entries)[1..] == rest;
        assert Join(PrintAll(codec, entries)) + "\n" == line + "\n" + (Join(rest) + "\n");
        SplitAtBreak("", line, Join(rest) + "\n");
        NonBlankConcat([line], Split(Join(rest) + "\n"));
        JoinedLines(codec, entries[1..]);
      }
    }
  }

  /** Writing a whole log and reading it back gives the same entries; an empty log too. */
  lemma WriteThenRead(codec: Codec, entries: seq<Entry>)
    requires Lawful(codec)
    ensures ParseAll(codec, LinesOf(Join(PrintAll(codec, entries)) + "\n")) == Some(entries)
    ensures Closed(Join(PrintAll(codec, entries)) + "\n")
  {
    JoinedLines(codec, entries);
    PrintedParses(codec, entries);
  }

  // ---------------------------------------------------------------------------
  // The store
  // ---------------------------------------------------------------------------

  function SafeChar(c: char): char {
    if 'a' <= c <= 'z' || 'A' <= c <= 'Z' || '0' <= c <= '9' || c == '_' || c == '-' then c else '_'
  }

  function SanitizeId(id: string): string {
    if id == "" then "" else [SafeChar(id[0])] + SanitizeId(id[1..])
  }

  datatype Mode = Full | LastN

  function ForkEntries(entries: seq<Entry>, mode: Mode, lastN: Option<int>): seq<Entry> {
    if mode == LastN && lastN.Some? && lastN.value > 0 && lastN.value < |entries|
    then entries[|entries| - lastN.value..] else entries
  }

  function Stamped(entry: Entry, now: string): Entry {
    if entry.timestamp.Some? then entry else entry.(timestamp := Some(now))
  }

  type Files = map<string, string>

  function TextAt(files: Files, file: string): string {
    if file in files then files[file] else ""
  }

  /** What loading a file yields: an unreadable one counts as empty. */
  function Loaded(codec: Codec, files: Files, file: string): seq<Entry> {
    match ParseAll(codec, LinesOf(TextAt(files, file)))
    case Some(entries) => entries
    case None => []
  }

  datatype Op =
    | Append(id: string, entry: Entry, now: string)
    | Fork(sourceId: string, newId: string, mode: Mode, lastN: Option<int>)

  function Target(op: Op): string {
    SanitizeId(if op.Append? then op.id else op.newId)
  }

  /** The text an operation leaves in its target file. */
  function Written(codec: Codec, files: Files, op: Op): string {
    match op
    case Append(id, entry, now) => TextAt(files, SanitizeId(id)) + (codec.encode(Stamped(entry, now)) + "\n")
    case Fork(sourceId, _, mode, lastN) =>
      Join(PrintAll(codec, ForkEntries(Loaded(codec, files, SanitizeId(sourceId)), mode, lastN))) + "\n"
  }

  function StepFiles(codec: Codec, files: Files, op: Op): Files {
    files[Target(op) := Written(codec, files, op)]
  }

  /** The 1-based numbers of the lines that are not JSON. */
  function BadLines(codec: Codec, lines: seq<string>): seq<nat> {
    if lines == [] then []
    else
      BadLines(codec, lines[..|lines| - 1]) + if codec.decode(lines[|lines| - 1]).None? then [|lines|] else []
  }

  lemma {:induction false} NoBadLinesIffParses(codec: Codec, lines: seq<string>)
    ensures BadLines(codec, lines) == [] <==> ParseAll(codec, lines).Some?
  {
    if lines == [] {
    } else {
      var front, last := lines[..|lines| - 1], lines[|lines| - 1];
      NoBadLinesIffParses(codec, front);
      ParseAllConcat(codec, front, [last]);
      assert lines == front + [last];
      assert [last][1..] == [];
    }
  }

  ghost predicate FileEncodes(codec: Codec, text: string, entries: seq<Entry>) {
    Closed(text) && ParseAll(codec, LinesOf(text)) == Some(entries)
  }

  lemma EmptyTextEncodesNothing(codec: Codec)
    ensures FileEncodes(codec, "", [])
  {
    assert [""][1..] == [];
  }

  class RolloutStore {
    const codec: Codec
    var files: Files

    constructor (codec: Codec)
      ensures this.codec == codec && files == map[]
    {
      this.codec, files := codec, map[];
    }

    method Append(sessionId: string, entry: Entry, now: string)
      modifies this
      ensures files == StepFiles(codec, old(files), Op.Append(sessionId, entry, now))
    {
      var path := SanitizeId(sessionId);
      var line := codec.encode(Stamped(entry, now)) + "\n";
      files := files[path := TextAt(files, path) + line];
    }

    method Load(sessionId: string) returns (entries: seq<Entry>)
      ensures entries == Loaded(codec, files, SanitizeId(sessionId))
    {
      var path := SanitizeId(sessionId);
      if path !in files { return []; }
      var parsed := ParseAll(codec, LinesOf(files[path]));
      return if parsed.Some? then parsed.value else [];
    }

    method Fork(sourceId: string, newSessionId: string, mode: Mode, lastN: Option<int>) returns (id: string)
      modifies this
      ensures files == StepFiles(codec, old(files), Op.Fork(sourceId, newSessionId, mode, lastN))
      ensures id == newSessionId
    {
      var entries := Load(sourceId);
      var forkEntries := ForkEntries(entries, mode, lastN);
      var path := SanitizeId(newSessionId);
      files := files[path := Join(PrintAll(codec, forkEntries)) + "\n"];
      return newSessionId;
    }

    /** Reports the number of every line that does not parse. */
    method Validate(sessionId: string) returns (valid: bool, errors: seq<nat>)
      ensures errors == BadLines(codec, LinesOf(TextAt(files, SanitizeId(sessionId))))
      ensures valid <==> ParseAll(codec, LinesOf(TextAt(files, SanitizeId(sessionId)))).Some?
    {
      var path := SanitizeId(sessionId);
      if path !in files {
        EmptyTextEncodesNothing(codec);
        return true, [];
      }
      var lines := LinesOf(files[path]);
      errors := [];
      var i := 0;
      while i < |lines|
        invariant 0 <= i <= |lines|
        invariant errors == BadLines(codec, lines[..i])
      {
        assert lines[..i + 1][..i] == lines[..i];
        if codec.decode(lines[i]).None? { errors := errors + [i + 1]; }
        i := i + 1;
      }
      assert lines[..i] == lines;
      NoBadLinesIffParses(codec, lines);
      return errors == [], errors;
    }

    /** Null exactly when there is nothing to resume, be the log empty, missing or broken. */
    method Resume(sessionId: string) returns (r: Option<seq<Entry>>)
      ensures r.Some? <==> Loaded(codec, files, SanitizeId(sessionId)) != []
      ensures r.Some? ==> r.value == Loaded(codec, files, SanitizeId(sessionId))
    {
      var valid, _ := Validate(sessionId);
      if !valid { return None; }
      var entries := Load(sessionId);
      if entries == [] { return None; }
      return Some(entries);
    }
  }

  /** The report names exactly the broken lines, each once and in order. */
  lemma {:induction false} BadLinesAreExact(codec: Codec, lines: seq<string>)
    ensures forall n :: n in BadLines(codec, lines) <==> 1 <= n <= |lines| && codec.decode(lines[n - 1]).None?
    ensures forall i, j | 0 <= i < j < |BadLines(codec, lines)| :: BadLines(codec, lines)[i] < BadLines(codec, lines)[j]
  {
    if lines == [] {
    } else {
      BadLinesAreExact(codec, lines[..|lines| - 1]);
      var front := BadLines(codec, lines[..|lines| - 1]);
      assert forall i | 0 <= i < |front| :: front[i] in front;
    }
  }

  // ---------------------------------------------------------------------------
  // Refinement
  // ---------------------------------------------------------------------------

  type Sessions = map<string, seq<Entry>>

  function EntriesAt(sessions: Sessions, key: string): seq<Entry> {
    if key in sessions then sessions[key] else []
  }

  /** The same operation on plain entry sequences. */
  function StepSessions(sessions: Sessions, op: Op): Sessions {
    sessions[Target(op) :=
      match op
      case Append(id, entry, now) => EntriesAt(sessions, SanitizeId(id)) + [Stamped(entry, now)]
      case Fork(sourceId, _, mode, lastN) => ForkEntries(EntriesAt(sessions, SanitizeId(sourceId)), mode, lastN)]
  }

  function RunFiles(codec: Codec, files: Files, ops: seq<Op>): Files {
    if ops == [] then files else StepFiles(codec, RunFiles(codec, files, ops[..|ops| - 1]), ops[|ops| - 1])
  }

  function RunSessions(sessions: Sessions, ops: seq<Op>): Sessions {
    if ops == [] then sessions else StepSessions(RunSessions(sessions, ops[..|ops| - 1]), ops[|ops| - 1])
  }

  ghost predicate Encodes(codec: Codec, files: Files, sessions: Sessions) {
    && files.Keys == sessions.Keys
    && forall key | key in files :: FileEncodes(codec, files[key], sessions[key])
  }

  lemma AppendRefines(codec: Codec, text: string, entries: seq<Entry>, e: Entry)
    requires Lawful(codec) && FileEncodes(codec, text, entries)
    ensures FileEncodes(codec, text + (codec.encode(e) + "\n"), entries + [e])
  {
    var line := codec.encode(e);
    AppendedLine(text, line);
    ParseAllConcat(codec, LinesOf(text), [line]);
    assert [line][1..] == [];
    assert codec.decode(line) == Some(e);
    assert ParseAll(codec, [line]) == Some([e] + []);
    assert [e] + [] == [e];
  }

  lemma StepRefines(codec: Codec, files: Files, sessions: Sessions, op: Op)
    requires Lawful(codec) && Encodes(codec, files, sessions)
    ensures Encodes(codec, StepFiles(codec, files, op), StepSessions(sessions, op))
  {
    EmptyTextEncodesNothing(codec);
    match op
    case Append(id, entry, now) =>
      var file := SanitizeId(id);
      AppendRefines(codec, TextAt(files, file), EntriesAt(sessions, file), Stamped(entry, now));
    case Fork(sourceId, _, mode, lastN) =>
      var file := SanitizeId(sourceId);
      assert FileEncodes(codec, TextAt(files, file), EntriesAt(sessions, file));
      WriteThenRead(codec, ForkEntries(EntriesAt(sessions, file), mode, lastN));
  }

  /** Any run of appends and forks leaves every file an encoding of its abstract log. */
  lemma {:induction false} RunRefines(codec: Codec, files: Files, sessions: Sessions, ops: seq<Op>)
    requires Lawful(codec) && Encodes(codec, files, sessions)
    ensures Encodes(codec, RunFiles(codec, files, ops), RunSessions(sessions, ops))
  {
    if ops == [] {
    } else {
      var front := ops[..|ops| - 1];
      RunRefines(codec, files, sessions, front);
      StepRefines(codec, RunFiles(codec, files, front), RunSessions(sessions, front), ops[|ops| - 1]);
    }
  }

  /** After any run from an empty directory, loading a session gives its abstract log. */
  lemma LoadAfterRun(codec: Codec, ops: seq<Op>, id: string)
    requires Lawful(codec)
    ensures Loaded(codec, RunFiles(codec, map[], ops), SanitizeId(id))
         == EntriesAt(RunSessions(map[], ops), SanitizeId(id))
  {
    RunRefines(codec, map[], map[], ops);
    EmptyTextEncodesNothing(codec);
  }

  // ---------------------------------------------------------------------------
  // Which sessions share a file
  // ---------------------------------------------------------------------------

  /** By its ASCII code a digit, a capital or small letter, an underscore or a dash. */
  ghost predicate Plain(c: char) {
    var code := c as int;
    48 <= code <= 57 || 65 <= code <= 90 || 97 <= code <= 122 || code == 95 || code == 45
  }

  lemma PlainIsSafe(c: char)
    ensures SafeChar(c) == if Plain(c) then c else '_'
  {
  }

  /** Sanitising keeps the length and every plain character, and puts an underscore for any other. */
  lemma {:induction false} SanitizedText(id: string)
    ensures |SanitizeId(id)| == |id|
    ensures forall i | 0 <= i < |id| :: SanitizeId(id)[i] == if Plain(id[i]) then id[i] else '_'
  {
    if id == "" {
    } else {
      PlainIsSafe(id[0]);
      SanitizedText(id[1..]);
    }
  }

  /** Characters that come out alike: the same, or each an underscore or turned into one. */
  ghost predicate Alike(c: char, d: char) {
    c == d || ((Plain(c) ==> c == '_') && (Plain(d) ==> d == '_'))
  }

  lemma AlikeIff(c: char, d: char)
    ensures (if Plain(c) then c else '_') == (if Plain(d) then d else '_') <==> Alike(c, d)
  {
  }

  /** Ids share a file exactly if they differ only where each has an underscore or a character that is not plain. */
  lemma SameFileIff(a: string, b: string)
    ensures SanitizeId(a) == SanitizeId(b) <==> |a| == |b| && forall i | 0 <= i < |a| :: Alike(a[i], b[i])
  {
    SanitizedText(a);
    SanitizedText(b);
    if |a| == |b| {
      forall i | 0 <= i < |a| ensures SanitizeId(a)[i] == SanitizeId(b)[i] <==> Alike(a[i], b[i]) {
        AlikeIff(a[i], b[i]);
      }
    }
  }

  ghost predicate PlainId(id: string) {
    forall i | 0 <= i < |id| :: Plain(id[i])
  }

  lemma {:induction false} OtherFilesAreUntouched(codec: Codec, files: Files, ops: seq<Op>, file: string)
    requires forall op <- ops :: Target(op) != file
    ensures TextAt(RunFiles(codec, files, ops), file) == TextAt(files, file)
  {
    if ops == [] {
    } else {
      assert ops[|ops| - 1] in ops;
      assert forall op <- ops[..|ops| - 1] :: op in ops;
      OtherFilesAreUntouched(codec, files, ops[..|ops| - 1], file);
    }
  }

  /** Sessions with plain ids never meddle: no run of appends and forks to others changes what loading one yields. */
  lemma OtherSessionsAreUntouched(codec: Codec, files: Files, ops: seq<Op>, id: string)
    requires PlainId(id)
    requires forall op <- ops :: var other := if op.Append? then op.id else op.newId; PlainId(other) && other != id
    ensures Loaded(codec, RunFiles(codec, files, ops), SanitizeId(id)) == Loaded(codec, files, SanitizeId(id))
  {
    forall op | op in ops ensures Target(op) != SanitizeId(id) {
      SameFileIff(if op.Append? then op.id else op.newId, id);
    }
    OtherFilesAreUntouched(codec, files, ops, SanitizeId(id));
  }

  /** The appends of `entries` to one session, the clock standing at `clock(i)` for entry `i`. */
  function Appends(id: string, entries: seq<Entry>, clock: nat -> string): seq<Op> {
    seq(|entries|, i requires 0 <= i < |entries| => Op.Append(id, entries[i], clock(i)))
  }

  lemma {:induction false} LogOfAppends(id: string, entries: seq<Entry>, clock: nat -> string)
    ensures var log := EntriesAt(RunSessions(map[], Appends(id, entries, clock)), SanitizeId(id));
            |log| == |entries| && forall i | 0 <= i < |entries| :: log[i] == Stamped(entries[i], clock(i))
  {
    if entries == [] {
    } else {
      var ops, last := Appends(id, entries, clock), |entries| - 1;
      assert ops[..last] == Appends(id, entries[..last], clock);
      LogOfAppends(id, entries[..last], clock);
    }
  }

  /**
   What is appended to a new session reads back in full and in order: an entry with a timestamp keeps
   it, one without gets the time of its append, and nothing else about it changes.
   */
  lemma AppendsReadBack(codec: Codec, id: string, entries: seq<Entry>, clock: nat -> string)
    requires Lawful(codec)
    ensures var read := Loaded(codec, RunFiles(codec, map[], Appends(id, entries, clock)), SanitizeId(id));
            && |read| == |entries|
            && forall i | 0 <= i < |entries| ::
                 && (entries[i].timestamp.Some? ==> read[i] == entries[i])
                 && (entries[i].timestamp.None? ==> read[i] == entries[i].(timestamp := Some(clock(i))))
  {
    LoadAfterRun(codec, Appends(id, entries, clock), id);
    LogOfAppends(id, entries, clock);
  }

  // ---------------------------------------------------------------------------
  // Forks and broken lines
  // ---------------------------------------------------------------------------

  /** A lastN fork keeps the last min(N, len) entries; any other fork keeps them all. */
  lemma ForkKeepsSuffix(entries: seq<Entry>, mode: Mode, lastN: Option<int>)
    ensures var kept := ForkEntries(entries, mode, lastN);
            && |kept| <= |entries| && kept == entries[|entries| - |kept|..]
            && (mode == LastN && lastN.Some? && lastN.value > 0 ==>
                  |kept| == if lastN.value < |entries| then lastN.value else |entries|)
            && (mode == Full || lastN.None? || lastN.value <= 0 ==> kept == entries)
  {
  }

  /** What a session's file parses to, if all its lines do. */
  function Parsed(codec: Codec, files: Files, id: string): Option<seq<Entry>> {
    ParseAll(codec, LinesOf(TextAt(files, SanitizeId(id))))
  }

  /**
   Whatever the files hold, the fork reads back as the kept entries of its source, and as an empty
   log when the source is broken.
   */
  lemma ForkReadsBack(codec: Codec, files: Files, sourceId: string, newId: string, mode: Mode, lastN: Option<int>)
    requires Lawful(codec)
    ensures Parsed(codec, StepFiles(codec, files, Op.Fork(sourceId, newId, mode, lastN)), newId)
         == Some(match Parsed(codec, files, sourceId)
                 case Some(entries) => ForkEntries(entries, mode, lastN)
                 case None => [])
  {
    WriteThenRead(codec, ForkEntries(Loaded(codec, files, SanitizeId(sourceId)), mode, lastN));
  }

  /** A fork starts empty exactly when its source is empty or broken; it never fails. */
  lemma ForkIsEmptyIff(codec: Codec, files: Files, sourceId: string, newId: string, mode: Mode, lastN: Option<int>)
    requires Lawful(codec)
    ensures Parsed(codec, StepFiles(codec, files, Op.Fork(sourceId, newId, mode, lastN)), newId) == Some([]) <==>
            Parsed(codec, files, sourceId).None? || Parsed(codec, files, sourceId) == Some([])
  {
    ForkReadsBack(codec, files, sourceId, newId, mode, lastN);
    if Parsed(codec, files, sourceId).Some? { ForkKeepsSuffix(Parsed(codec, files, sourceId).value, mode, lastN); }
  }

  /** One broken line at the end of a good log, such as a lone brace, makes all of it unreadable. */
  lemma BrokenLineLosesTheLog(codec: Codec, entries: seq<Entry>, line: string)
    requires Lawful(codec) && codec.decode(line).None? && '\n' !in line && !IsBlank(line)
    ensures var files: Files := map["s" := Join(PrintAll(codec, entries)) + "\n" + (line + "\n")];
            && Parsed(codec, files, "s").None?
            && Parsed(codec, StepFiles(codec, files, Op.Fork("s", "t", Full, None)), "t") == Some([])
  {
    var text := Join(PrintAll(codec, entries)) + "\n";
    var files: Files := map["s" := text + (line + "\n")];
    WriteThenRead(codec, entries);
    AppendedLine(text, line);
    ParseAllConcat(codec, LinesOf(text), [line]);
    assert SanitizeId("s") == "s" by { assert "s"[1..] == ""; }
    ForkIsEmptyIff(codec, files, "s", "t", Full, None);
  }
}
