/** The operator's dismissal log: an append-only text file of one JSON record a line, read tolerantly.
    JSON itself is a parameter. */
module Dismissals {
  import opened Options
  import opened Events
  import opened Entities

  /** A member of a parsed value or request body, as far as its type is looked at. */
  datatype Field = Whole(n: int) | Chars(s: string) | Other

  /** A parsed line on which members can be read; a line that does not parse, or is null, has none. */
  datatype Record = Record(eventId: Field, kind: Field, ts: Field)

  datatype Codec = Codec(parse: string -> Option<Record>, serialize: (int, string, string) -> string)

  predicate GoodId(f: Field) { f.Whole? && f.n >= 1 }

  predicate GoodKind(f: Field) { f.Chars? && 0 < |f.s| <= 100 }

  predicate GoodRecord(r: Option<Record>) {
    r.Some? && GoodId(r.value.eventId) && GoodKind(r.value.kind) && r.value.ts.Chars?
  }

  // ---- reading ----

  /** JavaScript's `text.split("\\n")`. */
  function Lines(text: string): (lines: seq<string>)
    ensures lines != []
  {
    if text == "" then [""]
    else
      var rest := Lines(text[1..]);
      if text[0] == '\n' then [""] + rest else [[text[0]] + rest[0]] + rest[1..]
  }

  function Unlines(lines: seq<string>): string
    requires lines != []
  {
    if |lines| == 1 then lines[0] else lines[0] + "\n" + Unlines(lines[1..])
  }

  /** The lines hold no newline and make up the text again. */
  lemma {:induction false} LinesSplitTheText(text: string)
    ensures Unlines(Lines(text)) == text
    ensures forall i :: 0 <= i < |Lines(text)| ==> '\n' !in Lines(text)[i]
  {
    if text != "" {
      LinesSplitTheText(text[1..]);
      var rest := Lines(text[1..]);
      assert text == [text[0]] + text[1..];
      if text[0] == '\n' {
        assert ([""] + rest)[1..] == rest;
      } else {
        assert ([[text[0]] + rest[0]] + rest[1..])[1..] == rest[1..];
        if |rest| > 1 {
          var more := Unlines(rest[1..]);
          assert [text[0]] + (rest[0] + "\n" + more) == ([text[0]] + rest[0]) + "\n" + more;
        }
      }
    }
  }

  function LineIds(codec: Codec, lines: seq<string>): set<int> {
    if lines == [] then {}
    else
      var r := codec.parse(lines[0]);
      (if GoodRecord(r) then {r.value.eventId.n} else {}) + LineIds(codec, lines[1..])
  }

  /** The dismissed ids of a file; a missing file dismisses nothing. */
  function Ids(codec: Codec, text: Option<string>): set<int> {
    if text.None? then {} else LineIds(codec, Lines(text.value))
  }

  /** The line's record names the id, a whole number from 1 on, with a kind of 1 to 100 characters and a stamp. */
  ghost predicate Names(codec: Codec, line: string, id: int) {
    var r := codec.parse(line);
    && r.Some? && r.value.eventId == Whole(id) && id >= 1
    && r.value.kind.Chars? && 1 <= |r.value.kind.s| <= 100 && r.value.ts.Chars?
  }

  /** A file dismisses exactly the ids that some line of it names; a missing file dismisses none. */
  lemma {:induction false} ReadsExactly(codec: Codec, text: Option<string>, id: int)
    ensures id in Ids(codec, text) <==> text.Some? && exists line :: line in Lines(text.value) && Names(codec, line, id)
  {
    if text.Some? { LinesNameIds(codec, Lines(text.value), id); }
  }

  lemma {:induction false} LinesNameIds(codec: Codec, lines: seq<string>, id: int)
    ensures id in LineIds(codec, lines) <==> exists line :: line in lines && Names(codec, line, id)
  {
    if lines != [] {
      var rest := lines[1..];
      LinesNameIds(codec, rest, id);
      assert forall line :: line in lines <==> line == lines[0] || line in rest;
      var r := codec.parse(lines[0]);
      assert Names(codec, lines[0], id) <==> GoodRecord(r) && id == r.value.eventId.n;
      if Names(codec, lines[0], id) { assert lines[0] in lines; }
      hide Names, GoodRecord;
    }
  }

  // ---- writing ----

  predicate EndsInNewline(text: string) { text != "" && text[|text| - 1] == '\n' }

  function Separator(text: Option<string>): string {
    if text.Some? && text.value != "" && !EndsInNewline(text.value) then "\n" else ""
  }

  function Existing(text: Option<string>): string { if text.Some? then text.value else "" }

  function Appended(codec: Codec, text: Option<string>, id: int, kind: string, ts: string): string {
    Existing(text) + Separator(text) + codec.serialize(id, kind, ts) + "\n"
  }

  /** What JSON gives: the record comes back from its line, its line has no newline in it, and neither an
      empty line nor an unfinished record parses. */
  ghost predicate Faithful(codec: Codec, id: int, kind: string, ts: string) {
    var line := codec.serialize(id, kind, ts);
    && '\n' !in line
    && codec.parse(line) == Some(Record(Whole(id), Chars(kind), Chars(ts)))
    && codec.parse("") == None
    && forall k :: 0 <= k < |line| ==> codec.parse(line[..k]) == None
  }

  lemma {:induction false} LinesJoin(a: string, b: string)
    ensures Lines(a + "\n" + b) == Lines(a) + Lines(b)
  {
    if a == "" {
      assert a + "\n" + b == "\n" + b;
      assert ("\n" + b)[1..] == b;
    } else {
      assert (a + "\n" + b)[1..] == a[1..] + "\n" + b;
      LinesJoin(a[1..], b);
    }
  }

  lemma {:induction false} OneLine(line: string)
    requires '\n' !in line
    ensures Lines(line) == [line]
  {
    if line != "" {
      OneLine(line[1..]);
      assert line == [line[0]] + line[1..];
    }
  }

  lemma {:induction false} LineIdsJoin(codec: Codec, a: seq<string>, b: seq<string>)
    ensures LineIds(codec, a + b) == LineIds(codec, a) + LineIds(codec, b)
  {
    if a == [] {
      assert a + b == b;
    } else {
      assert (a + b)[1..] == a[1..] + b;
      LineIdsJoin(codec, a[1..], b);
    }
  }

  lemma {:induction false} EmptyLine(codec: Codec)
    requires codec.parse("") == None
    ensures Lines("") == [""] && LineIds(codec, Lines("")) == {}
  {
    var lines := Lines("");
    assert lines == [""];
    assert lines[1..] == [] && LineIds(codec, lines[1..]) == {};
  }

  lemma {:induction false} LinesOfTwo(codec: Codec, head: string, tail: string)
    ensures LineIds(codec, Lines(head + "\n" + tail)) == LineIds(codec, Lines(head)) + LineIds(codec, Lines(tail))
  {
    hide Lines, LineIds;
    LinesJoin(head, tail);
    LineIdsJoin(codec, Lines(head), Lines(tail));
  }

  /** Text put after a file that ends in a newline, or after the separator, starts a line of its own. */
  lemma {:induction false} FreshLine(codec: Codec, text: Option<string>, tail: string)
    requires codec.parse("") == None
    ensures Ids(codec, Some(Existing(text) + Separator(text) + tail)) == Ids(codec, text) + LineIds(codec, Lines(tail))
  {
    hide Lines, LineIds;
    var t := Existing(text);
    EmptyLine(codec);
    if t == "" {
      assert t + Separator(text) + tail == tail;
    } else if EndsInNewline(t) {
      var head := t[..|t| - 1];
      assert t == head + "\n" + "";
      assert t + Separator(text) + tail == head + "\n" + tail;
      LinesOfTwo(codec, head, "");
      LinesOfTwo(codec, head, tail);
    } else {
      assert t + Separator(text) + tail == t + "\n" + tail;
      LinesOfTwo(codec, t, tail);
    }
  }

  lemma {:induction false} RecordLineIds(codec: Codec, id: int, kind: string, ts: string)
    requires Faithful(codec, id, kind, ts) && id >= 1 && GoodKind(Chars(kind))
    ensures LineIds(codec, Lines(codec.serialize(id, kind, ts) + "\n")) == {id}
    ensures LineIds(codec, Lines(codec.serialize(id, kind, ts))) == {id}
  {
    var line := codec.serialize(id, kind, ts);
    OneLine(line);
    assert [line][1..] == [] && LineIds(codec, [line][1..]) == {};
    assert LineIds(codec, [line]) == {id};
    hide Lines, LineIds;
    assert line + "\n" == line + "\n" + "";
    LinesOfTwo(codec, line, "");
    EmptyLine(codec);
  }

  /** Whatever the file held, torn and corrupt lines and a missing final newline included, an append adds
      exactly its own id to what is read, and the old text stays a prefix. */
  lemma {:induction false} AppendAddsExactly(codec: Codec, text: Option<string>, id: int, kind: string, ts: string)
    requires Faithful(codec, id, kind, ts) && id >= 1 && GoodKind(Chars(kind))
    ensures Ids(codec, Some(Appended(codec, text, id, kind, ts))) == Ids(codec, text) + {id}
    ensures Existing(text) <= Appended(codec, text, id, kind, ts)
  {
    var tail := codec.serialize(id, kind, ts) + "\n";
    FreshLine(codec, text, tail);
    RecordLineIds(codec, id, kind, ts);
    assert Appended(codec, text, id, kind, ts) == Existing(text) + Separator(text) + tail;
  }

  lemma {:induction false} TornLineIds(codec: Codec, id: int, kind: string, ts: string, written: string)
    requires Faithful(codec, id, kind, ts) && written < codec.serialize(id, kind, ts)
    ensures LineIds(codec, Lines(written)) == {}
  {
    var line := codec.serialize(id, kind, ts);
    assert written == line[..|written|];
    OneLine(written);
    assert codec.parse(written) == None;
    assert [written][1..] == [] && LineIds(codec, [written][1..]) == {};
  }

  lemma {:induction false} WrittenIds(codec: Codec, id: int, kind: string, ts: string, written: string)
    requires Faithful(codec, id, kind, ts) && id >= 1 && GoodKind(Chars(kind))
    requires written <= codec.serialize(id, kind, ts) + "\n"
    ensures LineIds(codec, Lines(written)) == if |written| < |codec.serialize(id, kind, ts)| then {} else {id}
  {
    hide Lines, LineIds;
    var line := codec.serialize(id, kind, ts);
    RecordLineIds(codec, id, kind, ts);
    if |written| < |line| {
      assert written < line;
      TornLineIds(codec, id, kind, ts, written);
    } else if |written| == |line| {
      assert written == line;
    } else {
      assert written == line + "\n";
    }
  }

  /** An append cut off after any number of its characters loses no dismissal and invents none: its own id
      is there exactly when its record was completely written. */
  lemma {:induction false} TornAppendKeepsIds(codec: Codec, text: Option<string>, id: int, kind: string, ts: string,
                                              torn: string)
    requires Faithful(codec, id, kind, ts) && id >= 1 && GoodKind(Chars(kind))
    requires Existing(text) <= torn <= Appended(codec, text, id, kind, ts)
    ensures Ids(codec, Some(torn)) ==
      Ids(codec, text) + if |torn| + 1 < |Appended(codec, text, id, kind, ts)| then {} else {id}
  {
    var base := Existing(text) + Separator(text);
    var tail := codec.serialize(id, kind, ts) + "\n";
    assert Appended(codec, text, id, kind, ts) == base + tail;
    hide Lines, LineIds, GoodKind;
    if |torn| < |base| {
      assert torn == Existing(text) && text.Some?;
    } else {
      var written := torn[|base|..];
      assert torn == base + written && written <= tail;
      FreshLine(codec, text, written);
      WrittenIds(codec, id, kind, ts, written);
    }
  }

  /** Once the id is in the log the overlay hides exactly the occurrence with that id: every other open row
      is shown or hidden as before, a later reopening under its new id included. */
  lemma {:induction false} DismissHidesExactly(codec: Codec, text: Option<string>, id: int, kind: string, ts: string,
                                               open: seq<Event>, x: Event)
    requires Faithful(codec, id, kind, ts) && id >= 1 && GoodKind(Chars(kind))
    ensures var after := Some(Appended(codec, text, id, kind, ts));
            x in ApplyDismissals(open, Ids(codec, after)) <==>
              x in ApplyDismissals(open, Ids(codec, text)) && x.id != id
  {
    AppendAddsExactly(codec, text, id, kind, ts);
    OverlayHidesOccurrences(open, Ids(codec, text), x);
    OverlayHidesOccurrences(open, Ids(codec, text) + {id}, x);
  }

  // ---- the file ----

  /** The request body's two members, each `Other` when absent or of another type. */
  datatype Body = Body(eventId: Field, kind: Field)

  datatype Status = Ok | BadRequest | NoPath

  /** The dismissal file of a data directory; `text` is absent while the file does not exist. */
  class DismissalFile {
    var text: Option<string>

    constructor (text: Option<string>)
      ensures this.text == text
    {
      this.text := text;
    }

    method ReadIds(codec: Codec) returns (ids: set<int>)
      ensures ids == Ids(codec, text)
    {
      ids := {};
      if text.None? { return; }
      var lines := Lines(text.value);
      for i := 0 to |lines|
        invariant ids == LineIds(codec, lines[..i])
      {
        var parsed := codec.parse(lines[i]);
        if GoodRecord(parsed) {
          ids := ids + {parsed.value.eventId.n};
        }
        assert lines[..i + 1] == lines[..i] + [lines[i]];
        LineIdsJoin(codec, lines[..i], [lines[i]]);
      }
      assert lines[..|lines|] == lines;
    }

    /** Appends unless the id is already there, so that repeating an append changes nothing. */
    method Append(codec: Codec, id: int, kind: string, ts: string)
      requires Faithful(codec, id, kind, ts) && id >= 1 && GoodKind(Chars(kind))
      modifies this
      ensures Ids(codec, text) == Ids(codec, old(text)) + {id}
      ensures Existing(old(text)) <= Existing(text)
      ensures text == if id in Ids(codec, old(text)) then old(text) else Some(Appended(codec, old(text), id, kind, ts))
    {
      var ids := ReadIds(codec);
      if id in ids {
        return;
      }
      var separator := "";
      if text.Some? && |text.value| > 0 && !EndsInNewline(text.value) {
        separator := "\n";
      }
      AppendAddsExactly(codec, text, id, kind, ts);
      text := Some(Existing(text) + separator + codec.serialize(id, kind, ts) + "\n");
    }

    /** The write route: a request is accepted exactly when its record would be read back, an accepted one is
        in the log afterwards, and a refused one leaves the file alone. */
    method Dismiss(codec: Codec, body: Body, hasPath: bool, ts: string) returns (status: Status)
      requires GoodId(body.eventId) && GoodKind(body.kind) ==> Faithful(codec, body.eventId.n, body.kind.s, ts)
      modifies this
      ensures status == Ok <==> hasPath && GoodRecord(Some(Record(body.eventId, body.kind, Chars(ts))))
      ensures status == BadRequest <==>
        !(body.eventId.Whole? && body.eventId.n >= 1 && body.kind.Chars? && 1 <= |body.kind.s| <= 100)
      ensures status == Ok ==> Ids(codec, text) == Ids(codec, old(text)) + {body.eventId.n}
      ensures status != Ok ==> text == old(text)
      ensures Existing(old(text)) <= Existing(text)
    {
      if !(body.eventId.Whole? && body.eventId.n >= 1) {
        return BadRequest;
      }
      if !body.kind.Chars? || |body.kind.s| == 0 || |body.kind.s| > 100 {
        return BadRequest;
      }
      if !hasPath {
        return NoPath;
      }
      Append(codec, body.eventId.n, body.kind.s, ts);
      status := Ok;
    }
  }
}
