/** The ADL envelope: one pass over tags and records that sorts the records into sections and
    reports what does not fit. No report means exactly one grammar was followed. */
module Aes31Document {
  import opened Wrappers

  datatype Record = Record(keyword: string, value: string)

  datatype Lexeme = Tag(name: string, closing: bool) | Entry(record: Record)

  datatype Section = Section(name: string, records: seq<Record>)

  datatype SyntaxError =
    | MisplacedOpen
    | MisplacedClose
    | OutsideRoot(name: string)
    | Interrupted(name: string)
    | WrongClose(name: string)
    | Unmatched(name: string)
    | Stray(record: Record)
    | UnclosedSection(name: string)
    | UnclosedRoot

  datatype Document = Document(
    rootOpens: nat, rootCloses: nat, sections: seq<Section>, errors: seq<SyntaxError>, recordCount: nat)

  const ROOT := "ADL"

  /** The document so far, the open section and whether the root was opened and closed. */
  datatype State = State(document: Document, current: Option<Section>, rootOpen: bool, rootClosed: bool)

  const START := State(Document(0, 0, [], [], 0), None, false, false)

  function Report(d: Document, condition: bool, error: SyntaxError): Document {
    if condition then d.(errors := d.errors + [error]) else d
  }

  function Step(s: State, lexeme: Lexeme): State {
    var d := s.document;
    match lexeme
    case Tag(name, closing) =>
      if name == ROOT then
        if closing then
          s.(document := Report(d.(rootCloses := d.rootCloses + 1),
                                !s.rootOpen || s.rootClosed || s.current.Some?, MisplacedClose),
             rootClosed := true)
        else
          s.(document := Report(d.(rootOpens := d.rootOpens + 1),
                                s.rootOpen || s.rootClosed || s.current.Some?, MisplacedOpen),
             rootOpen := true)
      else if !closing then
        var placed := Report(d, !s.rootOpen || s.rootClosed, OutsideRoot(name));
        var pushed := if s.current.Some?
                      then placed.(errors := placed.errors + [Interrupted(name)],
                                   sections := placed.sections + [s.current.value])
                      else placed;
        s.(document := pushed, current := Some(Section(name, [])))
      else if s.current.None? then
        s.(document := Report(d, true, Unmatched(name)))
      else
        s.(document := Report(d, s.current.value.name != name, WrongClose(name))
             .(sections := d.sections + [s.current.value]),
           current := None)
    case Entry(record) =>
      var counted := d.(recordCount := d.recordCount + 1);
      if s.current.Some? then
        s.(document := counted,
           current := Some(Section(s.current.value.name, s.current.value.records + [record])))
      else
        s.(document := Report(counted, true, Stray(record)))
  }

  function Run(lexemes: seq<Lexeme>): State {
    if lexemes == [] then START
    else Step(Run(lexemes[..|lexemes| - 1]), lexemes[|lexemes| - 1])
  }

  function Finish(s: State): Document {
    var d := if s.current.Some?
             then s.document.(errors := s.document.errors + [UnclosedSection(s.current.value.name)],
                              sections := s.document.sections + [s.current.value])
             else s.document;
    Report(d, s.rootOpen && !s.rootClosed, UnclosedRoot)
  }

  method ParseDocument(lexemes: seq<Lexeme>) returns (document: Document)
    ensures document == Finish(Run(lexemes))
    ensures document.errors == [] <==> InGrammar(lexemes)
    ensures document.recordCount == |Records(lexemes)|
  {
    document := START.document;
    var current: Option<Section> := None;
    var rootOpen, rootClosed := false, false;
    for i := 0 to |lexemes|
      invariant State(document, current, rootOpen, rootClosed) == Run(lexemes[..i])
    {
      assert lexemes[..i + 1][..i] == lexemes[..i];
      match lexemes[i] {
        case Tag(name, closing) =>
          if name == ROOT && closing {
            document := document.(rootCloses := document.rootCloses + 1);
            if !rootOpen || rootClosed || current.Some? {
              document := document.(errors := document.errors + [MisplacedClose]);
            }
            rootClosed := true;
          } else if name == ROOT {
            document := document.(rootOpens := document.rootOpens + 1);
            if rootOpen || rootClosed || current.Some? {
              document := document.(errors := document.errors + [MisplacedOpen]);
            }
            rootOpen := true;
          } else if !closing {
            if !rootOpen || rootClosed {
              document := document.(errors := document.errors + [OutsideRoot(name)]);
            }
            if current.Some? {
              document := document.(errors := document.errors + [Interrupted(name)],
                                    sections := document.sections + [current.value]);
            }
            current := Some(Section(name, []));
          } else if current.None? {
            document := document.(errors := document.errors + [Unmatched(name)]);
          } else {
            if current.value.name != name {
              document := document.(errors := document.errors + [WrongClose(name)]);
            }
            document := document.(sections := document.sections + [current.value]);
            current := None;
          }
        case Entry(record) =>
          document := document.(recordCount := document.recordCount + 1);
          if current.Some? {
            current := Some(Section(current.value.name, current.value.records + [record]));
          } else {
            document := document.(errors := document.errors + [Stray(record)]);
          }
      }
    }
    assert lexemes[..|lexemes|] == lexemes;
    if current.Some? {
      document := document.(errors := document.errors + [UnclosedSection(current.value.name)],
                            sections := document.sections + [current.value]);
    }
    if rootOpen && !rootClosed {
      document := document.(errors := document.errors + [UnclosedRoot]);
    }
    ExactGrammar(lexemes);
    RecordsAccountedFor(lexemes);
  }

  // ---------- the grammar

  function Entries(records: seq<Record>): seq<Lexeme> {
    seq(|records|, i requires 0 <= i < |records| => Entry(records[i]))
  }

  function SectionText(section: Section): seq<Lexeme> {
    [Tag(section.name, false)] + Entries(section.records) + [Tag(section.name, true)]
  }

  function Body(sections: seq<Section>): seq<Lexeme> {
    if sections == [] then [] else Body(sections[..|sections| - 1]) + SectionText(sections[|sections| - 1])
  }

  /** One root around matched, unnested sections that hold only records. */
  function Text(sections: seq<Section>): seq<Lexeme> {
    [Tag(ROOT, false)] + Body(sections) + [Tag(ROOT, true)]
  }

  predicate Named(sections: seq<Section>) {
    forall i :: 0 <= i < |sections| ==> sections[i].name != ROOT
  }

  ghost predicate InGrammar(lexemes: seq<Lexeme>) {
    lexemes == [] || exists sections :: Named(sections) && lexemes == Text(sections)
  }

  // ---------- without errors, the state spells out what was read

  function OpenText(current: Option<Section>): seq<Lexeme> {
    if current.None? then [] else [Tag(current.value.name, false)] + Entries(current.value.records)
  }

  function Spelled(s: State): seq<Lexeme> {
    (if s.rootOpen then [Tag(ROOT, false)] else []) + Body(s.document.sections) + OpenText(s.current)
    + (if s.rootClosed then [Tag(ROOT, true)] else [])
  }

  ghost predicate Consistent(s: State) {
    && Named(s.document.sections)
    && (s.current.Some? ==> s.current.value.name != ROOT)
    && (!s.rootOpen ==> s.document.sections == [] && s.current.None? && !s.rootClosed)
    && (s.rootClosed ==> s.current.None?)
  }

  lemma {:induction false} SpelledStep(s: State, lexeme: Lexeme)
    requires Consistent(s) && Step(s, lexeme).document.errors == []
    ensures s.document.errors == []
    ensures Consistent(Step(s, lexeme)) && Spelled(Step(s, lexeme)) == Spelled(s) + [lexeme]
  {
    var next := Step(s, lexeme);
    match lexeme
    case Tag(name, closing) =>
      if name != ROOT && closing {
        assert s.current.Some?;
        var root: seq<Lexeme> := [Tag(ROOT, false)];
        var body := Body(s.document.sections);
        assert next.document.sections[..|next.document.sections| - 1] == s.document.sections;
        assert root + (body + SectionText(s.current.value))
               == root + body + OpenText(s.current) + [lexeme];
      }
    case Entry(record) =>
      assert s.current.Some?;
      assert Entries(next.current.value.records) == Entries(s.current.value.records) + [lexeme];
  }

  lemma {:induction false} CleanRunSpells(lexemes: seq<Lexeme>)
    requires Run(lexemes).document.errors == []
    ensures Consistent(Run(lexemes)) && Spelled(Run(lexemes)) == lexemes
  {
    if lexemes != [] {
      var front, last := lexemes[..|lexemes| - 1], lexemes[|lexemes| - 1];
      ErrorsStay(Run(front), last);
      CleanRunSpells(front);
      SpelledStep(Run(front), last);
      assert lexemes == front + [last];
    }
  }

  lemma {:induction false} ErrorsStay(s: State, lexeme: Lexeme)
    ensures s.document.errors <= Step(s, lexeme).document.errors
  {
  }

  // ---------- text in the grammar runs without errors

  lemma {:induction false} RunStep(lexemes: seq<Lexeme>, lexeme: Lexeme)
    ensures Run(lexemes + [lexeme]) == Step(Run(lexemes), lexeme)
  {
    assert (lexemes + [lexeme])[..|lexemes|] == lexemes;
  }

  lemma {:induction false} RunEntries(before: seq<Lexeme>, name: string, records: seq<Record>)
    requires Run(before).current == Some(Section(name, []))
    ensures Run(before + Entries(records)) ==
            Run(before).(current := Some(Section(name, records)),
                         document := Run(before).document.(recordCount := Run(before).document.recordCount + |records|))
    decreases |records|
  {
    hide Run;
    if records == [] {
      assert before + Entries(records) == before;
    } else {
      var front, last := records[..|records| - 1], records[|records| - 1];
      RunEntries(before, name, front);
      assert before + Entries(records) == (before + Entries(front)) + [Entry(last)];
      RunStep(before + Entries(front), Entry(last));
      assert front + [last] == records;
    }
  }

  ghost predicate InsideRoot(s: State, sections: seq<Section>) {
    s.rootOpen && !s.rootClosed && s.current.None? && s.document.errors == [] && s.document.sections == sections
  }

  lemma {:induction false} RunBody(sections: seq<Section>)
    requires Named(sections)
    ensures InsideRoot(Run([Tag(ROOT, false)] + Body(sections)), sections)
  {
    assert Run([]) == START;
    hide Run;
    var root: seq<Lexeme> := [Tag(ROOT, false)];
    if sections == [] {
      assert root + Body(sections) == [] + [Tag(ROOT, false)];
      RunStep([], Tag(ROOT, false));
    } else {
      var front, last := sections[..|sections| - 1], sections[|sections| - 1];
      RunBody(front);
      assert sections == front + [last] && last.name != ROOT;
      assert root + Body(sections) == root + Body(front) + SectionText(last);
      hide Run, Body, Named;
      RunSection(root + Body(front), front, last);
    }
  }

  lemma {:induction false} RunSection(before: seq<Lexeme>, done: seq<Section>, section: Section)
    requires InsideRoot(Run(before), done) && section.name != ROOT
    ensures InsideRoot(Run(before + SectionText(section)), done + [section])
  {
    hide Run;
    var begun := before + [Tag(section.name, false)];
    RunStep(before, Tag(section.name, false));
    RunEntries(begun, section.name, section.records);
    RunStep(begun + Entries(section.records), Tag(section.name, true));
    assert before + SectionText(section) == begun + Entries(section.records) + [Tag(section.name, true)];
  }

  /** Text of the grammar is read without a report, and its sections are the ones written. */
  lemma {:induction false} TextIsRead(sections: seq<Section>)
    requires Named(sections)
    ensures Finish(Run(Text(sections))).errors == [] && Finish(Run(Text(sections))).sections == sections
  {
    RunBody(sections);
    RunStep([Tag(ROOT, false)] + Body(sections), Tag(ROOT, true));
  }

  /** No syntax error exactly for the empty document and for the texts of the grammar. */
  lemma {:induction false} ExactGrammar(lexemes: seq<Lexeme>)
    ensures Finish(Run(lexemes)).errors == [] <==> InGrammar(lexemes)
  {
    if Finish(Run(lexemes)).errors == [] {
      CleanRunSpells(lexemes);
      var s := Run(lexemes);
      if s.rootOpen {
        assert lexemes == Text(s.document.sections);
      }
    }
    if InGrammar(lexemes) && lexemes != [] {
      var sections :| Named(sections) && lexemes == Text(sections);
      TextIsRead(sections);
    }
  }

  // ---------- no record is lost, whatever the input

  function Records(lexemes: seq<Lexeme>): seq<Record> {
    if lexemes == [] then []
    else
      var before := Records(lexemes[..|lexemes| - 1]);
      if lexemes[|lexemes| - 1].Entry? then before + [lexemes[|lexemes| - 1].record] else before
  }

  function Placed(sections: seq<Section>): seq<Record> {
    if sections == [] then [] else Placed(sections[..|sections| - 1]) + sections[|sections| - 1].records
  }

  function Strays(errors: seq<SyntaxError>): seq<Record> {
    if errors == [] then []
    else
      var before := Strays(errors[..|errors| - 1]);
      if errors[|errors| - 1].Stray? then before + [errors[|errors| - 1].record] else before
  }

  /** `whole` is `left` and `right` merged, each in its own order. */
  ghost predicate Merge<T(!new)>(left: seq<T>, right: seq<T>, whole: seq<T>)
    decreases |whole|
  {
    if whole == [] then left == [] && right == []
    else
      var last, front := whole[|whole| - 1], whole[..|whole| - 1];
      || (left != [] && left[|left| - 1] == last && Merge(left[..|left| - 1], right, front))
      || (right != [] && right[|right| - 1] == last && Merge(left, right[..|right| - 1], front))
  }

  lemma {:induction false} MergeLeft<T(!new)>(left: seq<T>, right: seq<T>, whole: seq<T>, last: T)
    requires Merge(left, right, whole)
    ensures Merge(left + [last], right, whole + [last])
  {
    assert (whole + [last])[..|whole|] == whole && (left + [last])[..|left|] == left;
  }

  lemma {:induction false} MergeRight<T(!new)>(left: seq<T>, right: seq<T>, whole: seq<T>, last: T)
    requires Merge(left, right, whole)
    ensures Merge(left, right + [last], whole + [last])
  {
    assert (whole + [last])[..|whole|] == whole && (right + [last])[..|right|] == right;
  }

  function PlacedSoFar(s: State): seq<Record> {
    var placed := Placed(s.document.sections);
    if s.current.Some? then placed + s.current.value.records else placed
  }

  lemma {:induction false} PlacedSnoc(sections: seq<Section>, section: Section)
    ensures Placed(sections + [section]) == Placed(sections) + section.records
  {
    assert (sections + [section])[..|sections|] == sections;
  }

  lemma {:induction false} StraysSnoc(errors: seq<SyntaxError>, error: SyntaxError)
    ensures Strays(errors + [error]) == if error.Stray? then Strays(errors) + [error.record] else Strays(errors)
  {
    assert (errors + [error])[..|errors|] == errors;
  }

  lemma {:induction false} ReportKeepsStrays(d: Document, condition: bool, error: SyntaxError)
    requires !error.Stray?
    ensures Strays(Report(d, condition, error).errors) == Strays(d.errors)
    ensures Report(d, condition, error).sections == d.sections
    ensures Report(d, condition, error).recordCount == d.recordCount
  {
    StraysSnoc(d.errors, error);
  }

  lemma {:induction false} TagMovesNoRecord(s: State, lexeme: Lexeme)
    requires lexeme.Tag?
    ensures PlacedSoFar(Step(s, lexeme)) == PlacedSoFar(s)
    ensures Strays(Step(s, lexeme).document.errors) == Strays(s.document.errors)
    ensures Step(s, lexeme).document.recordCount == s.document.recordCount
  {
    hide Strays, Placed, Report;
    var d, name := s.document, lexeme.name;
    if s.current.Some? {
      PlacedSnoc(d.sections, s.current.value);
    }
    if name == ROOT {
      ReportKeepsStrays(d.(rootCloses := d.rootCloses + 1),
                        !s.rootOpen || s.rootClosed || s.current.Some?, MisplacedClose);
      ReportKeepsStrays(d.(rootOpens := d.rootOpens + 1),
                        s.rootOpen || s.rootClosed || s.current.Some?, MisplacedOpen);
    } else if !lexeme.closing {
      ReportKeepsStrays(d, !s.rootOpen || s.rootClosed, OutsideRoot(name));
      StraysSnoc(Report(d, !s.rootOpen || s.rootClosed, OutsideRoot(name)).errors, Interrupted(name));
    } else if s.current.None? {
      ReportKeepsStrays(d, true, Unmatched(name));
    } else {
      ReportKeepsStrays(d, s.current.value.name != name, WrongClose(name));
    }
    assert forall records: seq<Record> :: records + [] == records;
  }

  lemma {:induction false} EntryIsPlacedOrReported(s: State, record: Record)
    ensures Step(s, Entry(record)).document.recordCount == s.document.recordCount + 1
    ensures s.current.Some? ==>
              && PlacedSoFar(Step(s, Entry(record))) == PlacedSoFar(s) + [record]
              && Strays(Step(s, Entry(record)).document.errors) == Strays(s.document.errors)
    ensures s.current.None? ==>
              && PlacedSoFar(Step(s, Entry(record))) == PlacedSoFar(s)
              && Strays(Step(s, Entry(record)).document.errors) == Strays(s.document.errors) + [record]
  {
    StraysSnoc(s.document.errors, Stray(record));
    hide Strays, Placed;
  }

  lemma {:induction false} RunKeepsRecords(lexemes: seq<Lexeme>)
    ensures Merge(PlacedSoFar(Run(lexemes)), Strays(Run(lexemes).document.errors), Records(lexemes))
    ensures Run(lexemes).document.recordCount == |Records(lexemes)|
  {
    if lexemes != [] {
      var front, last := lexemes[..|lexemes| - 1], lexemes[|lexemes| - 1];
      RunKeepsRecords(front);
      var s := Run(front);
      hide Merge, PlacedSoFar, Strays, Step;
      match last
      case Tag(_, _) => TagMovesNoRecord(s, last);
      case Entry(record) =>
        EntryIsPlacedOrReported(s, record);
        if s.current.Some? {
          MergeLeft(PlacedSoFar(s), Strays(s.document.errors), Records(front), record);
        } else {
          MergeRight(PlacedSoFar(s), Strays(s.document.errors), Records(front), record);
        }
    }
  }

  /** Every record is counted, and is either in one section, in order, or reported, in order. */
  lemma {:induction false} RecordsAccountedFor(lexemes: seq<Lexeme>)
    ensures var d := Finish(Run(lexemes));
      Merge(Placed(d.sections), Strays(d.errors), Records(lexemes)) && d.recordCount == |Records(lexemes)|
  {
    RunKeepsRecords(lexemes);
    FinishKeepsRecords(Run(lexemes));
    hide *;
  }

  lemma {:induction false} FinishKeepsRecords(s: State)
    ensures Placed(Finish(s).sections) == PlacedSoFar(s)
    ensures Strays(Finish(s).errors) == Strays(s.document.errors)
    ensures Finish(s).recordCount == s.document.recordCount
  {
    var d := s.document;
    if s.current.Some? {
      PlacedSnoc(d.sections, s.current.value);
      StraysSnoc(d.errors, UnclosedSection(s.current.value.name));
      d := d.(errors := d.errors + [UnclosedSection(s.current.value.name)],
              sections := d.sections + [s.current.value]);
    }
    hide Strays, Placed, Report;
    ReportKeepsStrays(d, s.rootOpen && !s.rootClosed, UnclosedRoot);
  }
}
