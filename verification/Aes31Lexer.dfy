/** The ADL lexer: markers between quoted and unquoted text. Every text that can be cut into
    markers and gaps is read as the cut says, error by error, and every other is an error. */
module Aes31Lexer {
  import opened Wrappers
  import opened Aes31Document

  const MAX_TOKENS: nat := 250_000
  const MAX_RECORD_VALUE_BYTES: nat := 65_536

  datatype LexError = StrayText | Unterminated | BadTag | BadKeyword | OpenQuote

  datatype LimitError = TooManyTokens | ValueTooLong

  datatype Lexed = Lexed(lexemes: seq<Lexeme>, errors: seq<LexError>)

  /** A record whose value is still being read, from `start`. */
  datatype Pending = Pending(keyword: string, start: nat)

  // ---------- characters

  /** White space. */
  predicate IsBlank(c: char) {
    var n := c as int;
    || 9 <= n <= 13 || n in {0x20, 0x85, 0xa0, 0x1680, 0x2028, 0x2029, 0x202f, 0x205f, 0x3000}
    || 0x2000 <= n <= 0x200a
  }

  predicate Blank(text: string) {
    forall i :: 0 <= i < |text| ==> IsBlank(text[i])
  }

  function TrimStart(text: string): string {
    if text != [] && IsBlank(text[0]) then TrimStart(text[1..]) else text
  }

  function TrimEnd(text: string): string {
    if text != [] && IsBlank(text[|text| - 1]) then TrimEnd(text[..|text| - 1]) else text
  }

  function Trim(text: string): string {
    TrimEnd(TrimStart(text))
  }

  /** The length of the text in UTF-8. */
  function Utf8Size(text: string): nat {
    if text == [] then 0
    else
      var n := text[0] as int;
      (if n < 0x80 then 1 else if n < 0x800 then 2 else if n < 0x1_0000 then 3 else 4) + Utf8Size(text[1..])
  }

  predicate NameChar(c: char) {
    'a' <= c <= 'z' || 'A' <= c <= 'Z' || '0' <= c <= '9' || c == '_' || c == '-'
  }

  predicate ValidName(name: string) {
    name != [] && forall i :: 0 <= i < |name| ==> NameChar(name[i])
  }

  function Upper(name: string): (r: string)
    ensures |r| == |name|
  {
    seq(|name|, i requires 0 <= i < |name| =>
      if 'a' <= name[i] <= 'z' then ((name[i] as int) - 32) as char else name[i])
  }

  // ---------- scanning

  /** Inside quotes a backslash hides the next character. */
  datatype Scan = Scan(quote: bool, escaped: bool)

  const CLEAR := Scan(false, false)

  function Advance(scan: Scan, c: char): Scan {
    if scan.quote then
      if scan.escaped then scan.(escaped := false)
      else if c == '\\' then scan.(escaped := true)
      else if c == '"' then scan.(quote := false)
      else scan
    else if c == '"' then scan.(quote := true)
    else scan
  }

  predicate Opens(scan: Scan, c: char) {
    !scan.quote && (c == '<' || c == '(')
  }

  /** The first unquoted '<' or '(' from `from` on; without one, the scan at the end. */
  function NextMarker(text: string, from: nat, scan: Scan): (r: (Option<nat>, Scan))
    requires from <= |text|
    ensures r.0.Some? ==> from <= r.0.value < |text| && (text[r.0.value] == '<' || text[r.0.value] == '(')
    decreases |text| - from
  {
    if from == |text| then (None, scan)
    else if Opens(scan, text[from]) then (Some(from), scan)
    else NextMarker(text, from + 1, Advance(scan, text[from]))
  }

  function Find(text: string, from: nat, c: char): (at: Option<nat>)
    requires from <= |text|
    ensures at.Some? ==> from <= at.value < |text| && text[at.value] == c
    decreases |text| - from
  {
    if from == |text| then None else if text[from] == c then Some(from) else Find(text, from + 1, c)
  }

  /** What follows the last '>' or ')'. */
  function AfterLast(text: string): string {
    if text == [] then []
    else
      var last := text[|text| - 1];
      if last == '>' || last == ')' then [] else AfterLast(text[..|text| - 1]) + [last]
  }

  // ---------- lexing

  /** Ends the pending record at `at`, or looks for stray text. */
  function Flush(text: string, at: nat, pending: Option<Pending>, sofar: Lexed): Result<Lexed, LimitError>
    requires at <= |text|
  {
    if pending.Some? then Complete(text, at, pending.value, sofar)
    else if Blank(AfterLast(text[..at])) then Ok(sofar)
    else Ok(sofar.(errors := sofar.errors + [StrayText]))
  }

  function Complete(text: string, at: nat, pending: Pending, sofar: Lexed): Result<Lexed, LimitError>
    requires at <= |text|
  {
    var value := if pending.start <= at then Trim(text[pending.start..at]) else [];
    if Utf8Size(value) > MAX_RECORD_VALUE_BYTES then Err(ValueTooLong)
    else Ok(sofar.(lexemes := sofar.lexemes + [Entry(Record(pending.keyword, value))]))
  }

  /** What a marker with this text, up to its closing character, adds. */
  function Mark(tag: bool, raw: string, end: nat, sofar: Lexed): (Lexed, Option<Pending>) {
    if tag then
      var closing := raw != [] && raw[0] == '/';
      var name := if closing then Trim(raw[1..]) else raw;
      if ValidName(name) then (sofar.(lexemes := sofar.lexemes + [Tag(Upper(name), closing)]), None)
      else (sofar.(errors := sofar.errors + [BadTag]), None)
    else if ValidName(raw) then (sofar, Some(Pending(Upper(raw), end + 1)))
    else (sofar.(errors := sofar.errors + [BadKeyword]), None)
  }

  function Closer(open: char): char {
    if open == '<' then '>' else ')'
  }

  function AtEnd(text: string, scan: Scan, pending: Option<Pending>, sofar: Lexed): Result<Lexed, LimitError> {
    var lexed :- if pending.Some? then Complete(text, |text|, pending.value, sofar) else Ok(sofar);
    Ok(if scan.quote then lexed.(errors := lexed.errors + [OpenQuote]) else lexed)
  }

  function LexFrom(text: string, cursor: nat, scan: Scan, pending: Option<Pending>, sofar: Lexed)
    : Result<Lexed, LimitError>
    requires cursor <= |text|
    decreases |text| - cursor
  {
    match NextMarker(text, cursor, scan)
    case (None, last) => AtEnd(text, last, pending, sofar)
    case (Some(at), _) => LexMarker(text, at, pending, sofar)
  }

  function LexMarker(text: string, at: nat, pending: Option<Pending>, sofar: Lexed): Result<Lexed, LimitError>
    requires at < |text|
    decreases |text| - at, 0
  {
    var flushed :- Flush(text, at, pending, sofar);
    match Find(text, at + 1, Closer(text[at]))
    case None => Ok(flushed.(errors := flushed.errors + [Unterminated]))
    case Some(end) =>
      var (lexed, next) := Mark(text[at] == '<', Trim(text[at + 1..end]), end, flushed);
      if |lexed.lexemes| >= MAX_TOKENS then Err(TooManyTokens) else LexFrom(text, end + 1, CLEAR, next, lexed)
  }

  method Lex(text: string) returns (r: Result<Lexed, LimitError>)
    ensures r == LexFrom(text, 0, CLEAR, None, Lexed([], []))
  {
    hide Flush, Mark, Trim, AtEnd, Find;
    var lexed, pending: Option<Pending> := Lexed([], []), None;
    var cursor, scan := 0, CLEAR;
    while cursor < |text|
      invariant cursor <= |text|
      invariant LexFrom(text, cursor, scan, pending, lexed) == LexFrom(text, 0, CLEAR, None, Lexed([], []))
    {
      var c := text[cursor];
      if Opens(scan, c) {
        lexed :- Flush(text, cursor, pending, lexed);
        pending := None;
        var end := Find(text, cursor + 1, Closer(c));
        if end.None? {
          return Ok(lexed.(errors := lexed.errors + [Unterminated]));
        }
        var raw := Trim(text[cursor + 1..end.value]);
        var marked := Mark(c == '<', raw, end.value, lexed);
        lexed, pending := marked.0, marked.1;
        if |lexed.lexemes| >= MAX_TOKENS {
          return Err(TooManyTokens);
        }
        cursor, scan := end.value + 1, CLEAR;
      } else {
        scan := Advance(scan, c);
        cursor := cursor + 1;
      }
    }
    r := AtEnd(text, scan, pending, lexed);
  }

  // ---------- texts cut into markers and gaps

  /** The scan after text that opens no marker. */
  function Scanned(text: string, scan: Scan): Option<Scan> {
    if text == [] then Some(scan)
    else if Opens(scan, text[0]) then None
    else Scanned(text[1..], Advance(scan, text[0]))
  }

  /** Text with balanced quotes and no marker outside them. */
  predicate Quiet(text: string) {
    Scanned(text, CLEAR) == Some(CLEAR)
  }

  /** A marker, its raw text, and the text up to the next marker. */
  datatype Piece = Piece(tag: bool, inner: string, gap: string)

  function Open(p: Piece): char {
    if p.tag then '<' else '('
  }

  function PieceText(p: Piece): string {
    [Open(p)] + p.inner + [Closer(Open(p))] + p.gap
  }

  function PiecesText(pieces: seq<Piece>): string {
    if pieces == [] then [] else PieceText(pieces[0]) + PiecesText(pieces[1..])
  }

  predicate WellCut(p: Piece) {
    Closer(Open(p)) !in p.inner && Quiet(p.gap)
  }

  predicate AllCut(pieces: seq<Piece>) {
    forall i :: 0 <= i < |pieces| ==> WellCut(pieces[i])
  }

  // ---------- what a cut text says

  predicate IsClosing(p: Piece) {
    p.tag && Trim(p.inner) != [] && Trim(p.inner)[0] == '/'
  }

  function NameOf(p: Piece): string {
    if IsClosing(p) then Trim(Trim(p.inner)[1..]) else Trim(p.inner)
  }

  predicate GoodName(p: Piece) {
    ValidName(NameOf(p))
  }

  predicate StartsRecord(p: Piece) {
    !p.tag && GoodName(p)
  }

  function LexemeOf(p: Piece): Lexeme {
    if p.tag then Tag(Upper(NameOf(p)), IsClosing(p)) else Entry(Record(Upper(NameOf(p)), Trim(p.gap)))
  }

  function LexemesOf(pieces: seq<Piece>): seq<Lexeme> {
    if pieces == [] then []
    else (if GoodName(pieces[0]) then [LexemeOf(pieces[0])] else []) + LexemesOf(pieces[1..])
  }

  /** The errors of the pieces after a gap, which is free when it is not a record's value. */
  function ErrorsAfter(free: bool, gap: string, pieces: seq<Piece>): seq<LexError>
    decreases |pieces|
  {
    if pieces == [] then []
    else
      var p := pieces[0];
      (if free && !Blank(AfterLast(gap)) then [StrayText] else [])
      + (if GoodName(p) then [] else [if p.tag then BadTag else BadKeyword])
      + ErrorsAfter(!StartsRecord(p), p.gap, pieces[1..])
  }

  /** The limits are kept when `n` lexemes come before the pieces. */
  predicate Within(pieces: seq<Piece>, n: nat) {
    pieces == [] ||
    var p := pieces[0];
    && n + (if p.tag && GoodName(p) then 1 else 0) < MAX_TOKENS
    && (StartsRecord(p) ==> Utf8Size(Trim(p.gap)) <= MAX_RECORD_VALUE_BYTES)
    && Within(pieces[1..], n + if GoodName(p) then 1 else 0)
  }

  // ---------- lexing a cut text

  lemma {:induction false} SkipQuiet(text: string, from: nat, n: nat, scan: Scan)
    requires from + n <= |text| && Scanned(text[from..from + n], scan).Some?
    ensures NextMarker(text, from, scan) == NextMarker(text, from + n, Scanned(text[from..from + n], scan).value)
    decreases n
  {
    if n > 0 {
      assert text[from..from + n][1..] == text[from + 1..from + 1 + (n - 1)];
      SkipQuiet(text, from + 1, n - 1, Advance(scan, text[from]));
    }
  }

  lemma {:induction false} FindSkips(text: string, from: nat, to: nat, c: char)
    requires from <= to < |text| && text[to] == c && forall i :: from <= i < to ==> text[i] != c
    ensures Find(text, from, c) == Some(to)
    decreases |text| - from
  {
    if from < to {
      FindSkips(text, from + 1, to, c);
    }
  }

  /** Only what follows the last closing character is looked at. */
  lemma {:induction false} AfterLastOf(front: string, close: char, gap: string)
    requires close == '>' || close == ')'
    ensures AfterLast(front + [close] + gap) == AfterLast(gap)
    decreases |gap|
  {
    var text := front + [close] + gap;
    if gap == [] {
      assert text == front + [close];
    } else {
      assert text[..|text| - 1] == front + [close] + gap[..|gap| - 1];
      AfterLastOf(front, close, gap[..|gap| - 1]);
    }
  }

  lemma {:induction false} AfterLastBlank(text: string)
    requires Blank(text)
    ensures AfterLast(text) == text
  {
    if text != [] {
      assert IsBlank(text[|text| - 1]);
      AfterLastBlank(text[..|text| - 1]);
      assert text == text[..|text| - 1] + [text[|text| - 1]];
    }
  }

  lemma MarkerRead(text: string, at: nat, end: nat, pending: Option<Pending>, sofar: Lexed)
    requires at < end < |text| && (text[at] == '<' || text[at] == '(')
    requires Find(text, at + 1, Closer(text[at])) == Some(end)
    ensures LexFrom(text, at, CLEAR, pending, sofar) ==
      match Flush(text, at, pending, sofar)
      case Err(e) => Err(e)
      case Ok(flushed) =>
        var (lexed, next) := Mark(text[at] == '<', Trim(text[at + 1..end]), end, flushed);
        if |lexed.lexemes| >= MAX_TOKENS then Err(TooManyTokens) else LexFrom(text, end + 1, CLEAR, next, lexed)
  {
    hide Flush, Mark, Trim, Find;
  }

  lemma GapSkipped(text: string, from: nat, n: nat, pending: Option<Pending>, sofar: Lexed)
    requires from + n <= |text| && Quiet(text[from..from + n])
    ensures LexFrom(text, from, CLEAR, pending, sofar) == LexFrom(text, from + n, CLEAR, pending, sofar)
  {
    hide NextMarker, LexMarker, AtEnd;
    SkipQuiet(text, from, n, CLEAR);
  }

  /** The record still owed at the end of `before`. */
  function Owed(before: string, pending: Option<Pending>): seq<Lexeme> {
    if pending.None? then []
    else [Entry(Record(pending.value.keyword,
                       if pending.value.start <= |before| then Trim(before[pending.value.start..]) else []))]
  }

  /** The value of a pending record is in the text before. */
  predicate Ready(before: string, pending: Option<Pending>) {
    pending.Some? ==> pending.value.start <= |before|
  }

  predicate Fits(before: string, pending: Option<Pending>)
    requires Ready(before, pending)
  {
    pending.Some? ==> Utf8Size(Trim(before[pending.value.start..])) <= MAX_RECORD_VALUE_BYTES
  }

  /** The lexemes and errors after the text before is done with. */
  function Flushed(before: string, pending: Option<Pending>, sofar: Lexed): Lexed {
    Lexed(sofar.lexemes + Owed(before, pending),
          sofar.errors + if pending.None? && !Blank(AfterLast(before)) then [StrayText] else [])
  }

  lemma FlushReady(text: string, before: string, pending: Option<Pending>, sofar: Lexed)
    requires Ready(before, pending) && before <= text
    ensures Flush(text, |before|, pending, sofar)
            == if Fits(before, pending) then Ok(Flushed(before, pending, sofar)) else Err(ValueTooLong)
  {
    assert text[..|before|] == before;
    assert sofar.lexemes + [] == sofar.lexemes && sofar.errors + [] == sofar.errors;
    if pending.Some? {
      assert text[pending.value.start..|before|] == before[pending.value.start..];
    }
  }

  function PendingAfter(before: string, p: Piece): Option<Pending> {
    if StartsRecord(p) then Some(Pending(Upper(NameOf(p)), |before| + |p.inner| + 2)) else None
  }

  /** What a marker adds to the lexemes and errors. */
  function Marked(p: Piece, lexed: Lexed): Lexed {
    if !GoodName(p) then lexed.(errors := lexed.errors + [if p.tag then BadTag else BadKeyword])
    else if p.tag then lexed.(lexemes := lexed.lexemes + [LexemeOf(p)])
    else lexed
  }

  lemma MarkIs(p: Piece, before: string, lexed: Lexed)
    ensures Mark(p.tag, Trim(p.inner), |before| + 1 + |p.inner|, lexed) == (Marked(p, lexed), PendingAfter(before, p))
  {
    hide Trim, ValidName, Upper;
  }

  /** After a piece, the owed record is the piece's, and the free text is its gap. */
  lemma AfterPiece(before: string, p: Piece)
    ensures var after, pending := before + PieceText(p), PendingAfter(before, p);
      && Ready(after, pending) && AfterLast(after) == AfterLast(p.gap)
      && (StartsRecord(p) ==> Owed(after, pending) == [LexemeOf(p)])
      && (!StartsRecord(p) ==> pending == None)
      && (Fits(after, pending) <==> StartsRecord(p) ==> Utf8Size(Trim(p.gap)) <= MAX_RECORD_VALUE_BYTES)
  {
    hide Trim, Utf8Size, NameOf, ValidName;
    var front := before + [Open(p)] + p.inner;
    assert before + PieceText(p) == front + [Closer(Open(p))] + p.gap;
    assert (front + [Closer(Open(p))] + p.gap)[|front| + 1..] == p.gap;
    AfterLastOf(front, Closer(Open(p)), p.gap);
  }

  /** Lexing the front piece of the rest. */
  lemma ReadPiece(before: string, p: Piece, rest: string, pending: Option<Pending>, sofar: Lexed)
    requires WellCut(p) && Ready(before, pending)
    ensures var text, after := before + PieceText(p) + rest, before + PieceText(p);
      var lexed := Marked(p, Flushed(before, pending, sofar));
      LexFrom(text, |before|, CLEAR, pending, sofar) ==
        if !Fits(before, pending) then Err(ValueTooLong)
        else if |lexed.lexemes| >= MAX_TOKENS then Err(TooManyTokens)
        else LexFrom(text, |after|, CLEAR, PendingAfter(before, p), lexed)
  {
    hide Flush, Flushed, Fits, Ready, Mark, Marked, PendingAfter, Trim, Quiet, Blank, LexFrom, LexMarker;
    var text, at, open := before + PieceText(p) + rest, |before|, Open(p);
    var end := at + 1 + |p.inner|;
    assert text == before + [open] + p.inner + [Closer(open)] + p.gap + rest;
    assert text[at] == open && text[end] == Closer(open) && text[at + 1..end] == p.inner;
    FlushReady(text, before, pending, sofar);
    MarkIs(p, before, Flushed(before, pending, sofar));
    forall i | at + 1 <= i < end
      ensures text[i] != Closer(open)
    {
      assert text[i] == p.inner[i - at - 1];
    }
    FindSkips(text, at + 1, end, Closer(open));
    MarkerRead(text, at, end, pending, sofar);
    assert text[end + 1..end + 1 + |p.gap|] == p.gap;
    GapSkipped(text, end + 1, |p.gap|, PendingAfter(before, p), Marked(p, Flushed(before, pending, sofar)));
  }

  /** The rest of a cut text is read as the pieces say, or breaks a limit as they say. */
  lemma {:induction false} ReadPieces(before: string, pieces: seq<Piece>, pending: Option<Pending>, sofar: Lexed)
    requires AllCut(pieces) && Ready(before, pending) && Fits(before, pending)
    ensures var r := LexFrom(before + PiecesText(pieces), |before|, CLEAR, pending, sofar);
      if Within(pieces, |sofar.lexemes| + |Owed(before, pending)|)
      then r == Ok(Lexed(sofar.lexemes + Owed(before, pending) + LexemesOf(pieces),
                         sofar.errors + ErrorsAfter(pending.None?, before, pieces)))
      else r.Err?
    decreases |pieces|
  {
    hide *;
    var text := before + PiecesText(pieces);
    if pieces == [] {
      ReadNothing(before, pending, sofar);
      Unrolled(pieces, pending.None?, before, |sofar.lexemes| + |Owed(before, pending)|);
      assert text == before;
      assert sofar.lexemes + Owed(before, pending) + [] == sofar.lexemes + Owed(before, pending);
      assert sofar.errors + [] == sofar.errors;
    } else {
      var p, rest := pieces[0], pieces[1..];
      var after, next := before + PieceText(p), PendingAfter(before, p);
      var lexed := Marked(p, Flushed(before, pending, sofar));
      Unrolled(pieces, pending.None?, before, |sofar.lexemes| + |Owed(before, pending)|);
      assert text == after + PiecesText(rest);
      ReadPiece(before, p, PiecesText(rest), pending, sofar);
      AfterPiece(before, p);
      MarkedSizes(before, p, pending, sofar);
      if Fits(after, next) {
        ReadPieces(after, rest, next, lexed);
        SameErrors(!StartsRecord(p), after, p.gap, rest);
        Appended(before, pieces, pending, sofar);
      } else {
        TooLongFails(after, rest, next, lexed);
      }
    }
  }

  lemma Unrolled(pieces: seq<Piece>, free: bool, gap: string, n: nat)
    ensures pieces == [] ==>
      PiecesText(pieces) == [] && LexemesOf(pieces) == [] && ErrorsAfter(free, gap, pieces) == [] && Within(pieces, n)
    ensures pieces != [] ==>
      var p := pieces[0];
      && PiecesText(pieces) == PieceText(p) + PiecesText(pieces[1..])
      && (AllCut(pieces) ==> WellCut(p) && AllCut(pieces[1..]))
      && (Within(pieces, n) <==>
            && n + (if p.tag && GoodName(p) then 1 else 0) < MAX_TOKENS
            && (StartsRecord(p) ==> Utf8Size(Trim(p.gap)) <= MAX_RECORD_VALUE_BYTES)
            && Within(pieces[1..], n + if GoodName(p) then 1 else 0))
  {
    hide PieceText, WellCut, GoodName, StartsRecord, LexemeOf, Utf8Size, Trim;
  }

  lemma ReadNothing(before: string, pending: Option<Pending>, sofar: Lexed)
    requires Ready(before, pending) && Fits(before, pending)
    ensures LexFrom(before, |before|, CLEAR, pending, sofar)
            == Ok(Lexed(sofar.lexemes + Owed(before, pending), sofar.errors))
  {
    hide Trim, Utf8Size;
    assert sofar.lexemes + [] == sofar.lexemes;
    if pending.Some? {
      assert before[pending.value.start..|before|] == before[pending.value.start..];
    }
  }

  lemma MarkedSizes(before: string, p: Piece, pending: Option<Pending>, sofar: Lexed)
    ensures var lexed := Marked(p, Flushed(before, pending, sofar));
      && |lexed.lexemes| == |sofar.lexemes| + |Owed(before, pending)| + (if p.tag && GoodName(p) then 1 else 0)
      && |lexed.lexemes| + |Owed(before + PieceText(p), PendingAfter(before, p))|
         == |sofar.lexemes| + |Owed(before, pending)| + (if GoodName(p) then 1 else 0)
  {
    hide Trim, ValidName, NameOf;
  }

  lemma SameErrors(free: bool, a: string, b: string, pieces: seq<Piece>)
    requires AfterLast(a) == AfterLast(b)
    ensures ErrorsAfter(free, a, pieces) == ErrorsAfter(free, b, pieces)
  {
    hide GoodName, StartsRecord, AfterLast;
  }

  /** The marked front and the rest add up to the whole. */
  lemma Appended(before: string, pieces: seq<Piece>, pending: Option<Pending>, sofar: Lexed)
    requires pieces != []
    ensures var p, rest := pieces[0], pieces[1..];
      var lexed := Marked(p, Flushed(before, pending, sofar));
      && lexed.lexemes + Owed(before + PieceText(p), PendingAfter(before, p)) + LexemesOf(rest)
         == sofar.lexemes + Owed(before, pending) + LexemesOf(pieces)
      && lexed.errors + ErrorsAfter(!StartsRecord(p), p.gap, rest)
         == sofar.errors + ErrorsAfter(pending.None?, before, pieces)
      && (PendingAfter(before, p).None? <==> !StartsRecord(p))
  {
    hide *;
    var p, rest := pieces[0], pieces[1..];
    FlushedParts(before, pending, sofar);
    MarkedParts(before, p, Flushed(before, pending, sofar));
    Ahead(pieces, pending.None?, before);
    var base := sofar.lexemes + Owed(before, pending);
    var last := if GoodName(p) then [LexemeOf(p)] else [];
    Regrouped(base, last, [], LexemesOf(rest));
    var stray := if pending.None? && !Blank(AfterLast(before)) then [StrayText] else [];
    var named := if GoodName(p) then [] else [if p.tag then BadTag else BadKeyword];
    var more := ErrorsAfter(!StartsRecord(p), p.gap, rest);
    Regrouped(sofar.errors, stray, named, more);
  }

  lemma Regrouped<T>(a: seq<T>, b: seq<T>, c: seq<T>, d: seq<T>)
    ensures a + b + c + d == a + (b + c + d) && b + [] == b && a + b + [] == a + b
  {
  }

  lemma FlushedParts(before: string, pending: Option<Pending>, sofar: Lexed)
    ensures Flushed(before, pending, sofar).lexemes == sofar.lexemes + Owed(before, pending)
    ensures Flushed(before, pending, sofar).errors
            == sofar.errors + if pending.None? && !Blank(AfterLast(before)) then [StrayText] else []
  {
    hide Owed, Blank, AfterLast;
  }

  lemma MarkedParts(before: string, p: Piece, flushed: Lexed)
    ensures Marked(p, flushed).lexemes + Owed(before + PieceText(p), PendingAfter(before, p))
            == flushed.lexemes + if GoodName(p) then [LexemeOf(p)] else []
    ensures Marked(p, flushed).errors
            == flushed.errors + if GoodName(p) then [] else [if p.tag then BadTag else BadKeyword]
    ensures PendingAfter(before, p).None? <==> !StartsRecord(p)
  {
    AfterPiece(before, p);
    hide GoodName, LexemeOf, PieceText, NameOf;
    assert flushed.errors + [] == flushed.errors && flushed.lexemes + [] == flushed.lexemes;
  }

  lemma Ahead(pieces: seq<Piece>, free: bool, gap: string)
    requires pieces != []
    ensures LexemesOf(pieces) == (if GoodName(pieces[0]) then [LexemeOf(pieces[0])] else []) + LexemesOf(pieces[1..])
    ensures ErrorsAfter(free, gap, pieces)
            == (if free && !Blank(AfterLast(gap)) then [StrayText] else [])
               + (if GoodName(pieces[0]) then [] else [if pieces[0].tag then BadTag else BadKeyword])
               + ErrorsAfter(!StartsRecord(pieces[0]), pieces[0].gap, pieces[1..])
  {
    hide GoodName, LexemeOf, Blank, AfterLast, StartsRecord;
  }

  lemma TooLongFails(before: string, pieces: seq<Piece>, pending: Option<Pending>, sofar: Lexed)
    requires AllCut(pieces) && Ready(before, pending) && !Fits(before, pending)
    ensures LexFrom(before + PiecesText(pieces), |before|, CLEAR, pending, sofar).Err?
  {
    hide *;
    Unrolled(pieces, true, before, 0);
    if pieces == [] {
      assert before + PiecesText(pieces) == before;
      NothingTooLong(before, pending, sofar);
    } else {
      assert before + PiecesText(pieces) == before + PieceText(pieces[0]) + PiecesText(pieces[1..]);
      ReadPiece(before, pieces[0], PiecesText(pieces[1..]), pending, sofar);
    }
  }

  lemma NothingTooLong(before: string, pending: Option<Pending>, sofar: Lexed)
    requires Ready(before, pending) && !Fits(before, pending)
    ensures LexFrom(before, |before|, CLEAR, pending, sofar).Err?
  {
    hide Trim, Utf8Size;
    assert before[pending.value.start..|before|] == before[pending.value.start..];
  }

  /** What lexing any cut text gives: the lexemes of its markers, and its errors one by one. */
  lemma CutTextIsLexed(lead: string, pieces: seq<Piece>)
    requires Quiet(lead) && AllCut(pieces)
    ensures var r := LexFrom(lead + PiecesText(pieces), 0, CLEAR, None, Lexed([], []));
      if Within(pieces, 0) then r == Ok(Lexed(LexemesOf(pieces), ErrorsAfter(true, lead, pieces))) else r.Err?
  {
    hide LexFrom, Within, LexemesOf, ErrorsAfter, PiecesText, AllCut, Quiet;
    var text := lead + PiecesText(pieces);
    assert text[0..0 + |lead|] == lead;
    GapSkipped(text, 0, |lead|, None, Lexed([], []));
    ReadPieces(lead, pieces, None, Lexed([], []));
    assert [] + [] + LexemesOf(pieces) == LexemesOf(pieces);
    assert [] + ErrorsAfter(true, lead, pieces) == ErrorsAfter(true, lead, pieces);
  }

  // ---------- text outside records

  /** How many gaps outside records hold text. */
  function StrayGaps(free: bool, gap: string, pieces: seq<Piece>): nat
    decreases |pieces|
  {
    (if free && !Blank(gap) then 1 else 0)
    + if pieces == [] then 0 else StrayGaps(!StartsRecord(pieces[0]), pieces[0].gap, pieces[1..])
  }

  function StrayErrors(errors: seq<LexError>): nat {
    if errors == [] then 0 else (if errors[0] == StrayText then 1 else 0) + StrayErrors(errors[1..])
  }

  /** Text in a gap outside records has a marker after it, and does not end in '>' or ')' but for
      blank space. */
  predicate StrayVisible(free: bool, gap: string, pieces: seq<Piece>)
    decreases |pieces|
  {
    && (free && !Blank(gap) ==> pieces != [] && !Blank(AfterLast(gap)))
    && (pieces == [] || StrayVisible(!StartsRecord(pieces[0]), pieces[0].gap, pieces[1..]))
  }

  lemma {:induction false} StrayErrorsAdd(a: seq<LexError>, b: seq<LexError>)
    ensures StrayErrors(a + b) == StrayErrors(a) + StrayErrors(b)
    decreases |a|
  {
    if a == [] {
      assert a + b == b;
    } else {
      assert (a + b)[1..] == a[1..] + b;
      StrayErrorsAdd(a[1..], b);
    }
  }

  /** Each piece of stray text is reported at most once, and all of it is reported exactly when
      all of it is visible. */
  lemma {:induction false} StrayTextReported(free: bool, gap: string, pieces: seq<Piece>)
    ensures StrayErrors(ErrorsAfter(free, gap, pieces)) <= StrayGaps(free, gap, pieces)
    ensures StrayErrors(ErrorsAfter(free, gap, pieces)) == StrayGaps(free, gap, pieces) <==>
            StrayVisible(free, gap, pieces)
    decreases |pieces|
  {
    hide GoodName, StartsRecord, AfterLast, Blank;
    if Blank(gap) {
      AfterLastBlank(gap);
    }
    if pieces != [] {
      var p := pieces[0];
      var here := if free && !Blank(AfterLast(gap)) then [StrayText] else [];
      var named := if GoodName(p) then [] else [if p.tag then BadTag else BadKeyword];
      StrayTextReported(!StartsRecord(p), p.gap, pieces[1..]);
      StrayErrorsAdd(here + named, ErrorsAfter(!StartsRecord(p), p.gap, pieces[1..]));
      StrayErrorsAdd(here, named);
    }
  }

  /** So the lexer reports all stray text of a cut text exactly when it is visible. */
  lemma AllStrayTextReported(lead: string, pieces: seq<Piece>)
    requires Quiet(lead) && AllCut(pieces) && Within(pieces, 0)
    ensures var r := LexFrom(lead + PiecesText(pieces), 0, CLEAR, None, Lexed([], []));
      r.Ok? && (StrayErrors(r.value.errors) == StrayGaps(true, lead, pieces) <==> StrayVisible(true, lead, pieces))
  {
    hide *;
    CutTextIsLexed(lead, pieces);
    StrayTextReported(true, lead, pieces);
  }

  predicate Trimmed(text: string) {
    text != [] ==> !IsBlank(text[0]) && !IsBlank(text[|text| - 1])
  }

  lemma {:induction false} ScannedConcat(a: string, b: string, scan: Scan)
    requires Scanned(a, scan).Some?
    ensures Scanned(a + b, scan) == Scanned(b, Scanned(a, scan).value)
    decreases |a|
  {
    if a == [] {
      assert a + b == b;
    } else {
      assert (a + b)[1..] == a[1..] + b;
      ScannedConcat(a[1..], b, Advance(scan, a[0]));
    }
  }

  predicate IsPlain(c: char) {
    c != '<' && c != '(' && c != '"'
  }

  lemma {:induction false} PlainIsQuiet(text: string)
    requires forall i :: 0 <= i < |text| ==> IsPlain(text[i])
    ensures Quiet(text)
  {
    if text != [] {
      PlainIsQuiet(text[1..]);
    }
  }

  lemma BlankIsQuiet(text: string)
    requires Blank(text)
    ensures Quiet(text)
  {
    assert forall i :: 0 <= i < |text| ==> IsBlank(text[i]) && IsPlain(text[i]);
    PlainIsQuiet(text);
  }

  lemma {:induction false} TrimStartDrops(lead: string, text: string)
    requires Blank(lead) && (text != [] ==> !IsBlank(text[0]))
    ensures TrimStart(lead + text) == text
    decreases |lead|
  {
    if lead == [] {
      assert lead + text == text;
    } else {
      assert IsBlank(lead[0]) && (lead + text)[1..] == lead[1..] + text;
      TrimStartDrops(lead[1..], text);
    }
  }

  lemma {:induction false} TrimEndDrops(text: string, trail: string)
    requires Blank(trail) && (text != [] ==> !IsBlank(text[|text| - 1]))
    ensures TrimEnd(text + trail) == text
    decreases |trail|
  {
    if trail == [] {
      assert text + trail == text;
    } else {
      var n := |trail| - 1;
      assert IsBlank(trail[n]) && (text + trail)[..|text| + n] == text + trail[..n];
      TrimEndDrops(text, trail[..n]);
    }
  }

  lemma TrimFinds(lead: string, value: string, trail: string)
    requires Blank(lead) && Blank(trail) && Trimmed(value)
    ensures Trim(lead + value + trail) == value
  {
    if value == [] {
      assert lead + value + trail == lead + trail + [];
      assert Blank(lead + trail);
      TrimStartDrops(lead + trail, []);
      TrimEndDrops([], []);
      assert [] + [] == value;
    } else {
      assert lead + value + trail == lead + (value + trail);
      TrimStartDrops(lead, value + trail);
      TrimEndDrops(value, trail);
    }
  }

  lemma NameParts(name: string)
    requires ValidName(name)
    ensures name != [] && name[0] != '/' && forall c :: c in "<>()" ==> c !in name && c !in "/" + name
  {
    assert NameChar(name[0]);
    forall i | 0 <= i < |name|
      ensures name[i] !in "<>()"
    {
      assert NameChar(name[i]);
    }
  }

  lemma NameIsTrimmed(slash: string, name: string)
    requires slash in {"", "/"} && ValidName(name)
    ensures Trim(slash + name) == slash + name
  {
    hide Trim;
    var whole := slash + name;
    assert NameChar(name[0]) && NameChar(name[|name| - 1]);
    assert whole[|whole| - 1] == name[|name| - 1] && (whole[0] == '/' || whole[0] == name[0]);
    TrimFinds([], whole, []);
    assert [] + whole + [] == whole;
  }

  // ---------- every text

  /** The text from `cursor` on as a gap and pieces, unless a marker or a quote in it has no end. */
  function CutFrom(text: string, cursor: nat): Option<(string, seq<Piece>)>
    requires cursor <= |text|
    decreases |text| - cursor
  {
    match NextMarker(text, cursor, CLEAR)
    case (None, scan) => if scan == CLEAR then Some((text[cursor..], [])) else None
    case (Some(at), _) =>
      match Find(text, at + 1, Closer(text[at]))
      case None => None
      case Some(end) =>
        match CutFrom(text, end + 1)
        case None => None
        case Some((gap, pieces)) =>
          Some((text[cursor..at], [Piece(text[at] == '<', text[at + 1..end], gap)] + pieces))
  }

  /** Text up to the next marker is quiet, and so is text without one that ends unquoted. */
  lemma {:induction false} GapScanned(text: string, from: nat, scan: Scan)
    requires from <= |text| && (scan.escaped ==> scan.quote)
    ensures var (marker, last) := NextMarker(text, from, scan);
      && Scanned(text[from..marker.GetOr(|text|)], scan) == Some(last)
      && (last.escaped ==> last.quote) && (marker.Some? ==> last == CLEAR)
    decreases |text| - from
  {
    if from < |text| && !Opens(scan, text[from]) {
      GapScanned(text, from + 1, Advance(scan, text[from]));
      var end := NextMarker(text, from, scan).0.GetOr(|text|);
      assert text[from..end][1..] == text[from + 1..end];
    }
  }

  lemma {:induction false} FoundFirst(text: string, from: nat, c: char)
    requires from <= |text| && Find(text, from, c).Some?
    ensures c !in text[from..Find(text, from, c).value]
    decreases |text| - from
  {
    if text[from] != c {
      FoundFirst(text, from + 1, c);
      var end := Find(text, from, c).value;
      assert text[from..end] == [text[from]] + text[from + 1..end];
    }
  }

  /** The cut spells out the text. */
  lemma {:induction false} CutSpells(text: string, cursor: nat)
    requires cursor <= |text| && CutFrom(text, cursor).Some?
    ensures var (gap, pieces) := CutFrom(text, cursor).value;
            text[cursor..] == gap + PiecesText(pieces) && Quiet(gap) && AllCut(pieces)
    decreases |text| - cursor
  {
    hide Scanned, NextMarker, Find, PiecesText, PieceText, AllCut;
    NoPieces();
    GapScanned(text, cursor, CLEAR);
    var marker := NextMarker(text, cursor, CLEAR).0;
    if marker.None? {
      assert text[cursor..|text|] == text[cursor..];
    } else {
      var at := marker.value;
      var end := Find(text, at + 1, Closer(text[at])).value;
      CutSpells(text, end + 1);
      FoundFirst(text, at + 1, Closer(text[at]));
      var (gap, rest) := CutFrom(text, end + 1).value;
      var piece := Piece(text[at] == '<', text[at + 1..end], gap);
      PieceSpells(text, cursor, at, end, gap, rest);
      PieceInFront(piece, rest);
    }
  }

  lemma NoPieces()
    ensures PiecesText([]) == [] && AllCut([])
  {
  }

  lemma PieceInFront(piece: Piece, rest: seq<Piece>)
    ensures PiecesText([piece] + rest) == PieceText(piece) + PiecesText(rest)
    ensures AllCut([piece] + rest) <==> WellCut(piece) && AllCut(rest)
  {
    hide PieceText, WellCut;
    var all := [piece] + rest;
    assert all[1..] == rest;
    assert forall i :: 0 <= i < |rest| ==> rest[i] == all[i + 1];
  }

  lemma PieceSpells(text: string, cursor: nat, at: nat, end: nat, gap: string, rest: seq<Piece>)
    requires cursor <= at < end < |text| && (text[at] == '<' || text[at] == '(') && text[end] == Closer(text[at])
    requires text[end + 1..] == gap + PiecesText(rest)
    ensures text[cursor..]
            == text[cursor..at] + (PieceText(Piece(text[at] == '<', text[at + 1..end], gap)) + PiecesText(rest))
  {
    hide PiecesText;
    assert text[cursor..] == text[cursor..at] + [text[at]] + text[at + 1..end] + [text[end]] + text[end + 1..];
  }

  /** A text that cannot be cut has an error, or breaks a limit. */
  lemma {:induction false} UncutFails(text: string, cursor: nat, pending: Option<Pending>, sofar: Lexed)
    requires cursor <= |text| && CutFrom(text, cursor).None?
    ensures var r := LexFrom(text, cursor, CLEAR, pending, sofar); r.Err? || r.value.errors != []
    decreases |text| - cursor
  {
    hide NextMarker, Find, Flush, Complete, Mark, Trim, Scanned, AtEnd;
    GapScanned(text, cursor, CLEAR);
    var (marker, last) := NextMarker(text, cursor, CLEAR);
    if marker.None? {
      QuoteLeftOpen(text, last, pending, sofar);
    } else if && Flush(text, marker.value, pending, sofar).Ok? {
      var at, flushed := marker.value, Flush(text, marker.value, pending, sofar).value;
      if Find(text, at + 1, Closer(text[at])).Some? {
        var end := Find(text, at + 1, Closer(text[at])).value;
        var (lexed, next) := Mark(text[at] == '<', Trim(text[at + 1..end]), end, flushed);
        UncutFails(text, end + 1, next, lexed);
      }
    }
  }

  lemma QuoteLeftOpen(text: string, scan: Scan, pending: Option<Pending>, sofar: Lexed)
    requires scan != CLEAR && (scan.escaped ==> scan.quote)
    ensures var r := AtEnd(text, scan, pending, sofar); r.Err? || r.value.errors != []
  {
    hide Complete;
  }

  // ---------- the error-free texts

  /** Gap and pieces without an error: every name is good, and no text shows before a marker where
      no record is being read. */
  predicate Clean(lead: string, pieces: seq<Piece>) {
    && (forall k :: 0 <= k < |pieces| ==> GoodName(pieces[k]))
    && (pieces != [] ==> Blank(AfterLast(lead)))
    && (forall k :: 0 <= k < |pieces| - 1 && pieces[k].tag ==> Blank(AfterLast(pieces[k].gap)))
  }

  lemma {:induction false} CleanHasNoErrors(free: bool, gap: string, pieces: seq<Piece>)
    ensures ErrorsAfter(free, gap, pieces) == [] <==>
      && (forall k :: 0 <= k < |pieces| ==> GoodName(pieces[k]))
      && (pieces != [] && free ==> Blank(AfterLast(gap)))
      && (forall k :: 0 <= k < |pieces| - 1 && pieces[k].tag ==> Blank(AfterLast(pieces[k].gap)))
    decreases |pieces|
  {
    hide NameOf, ValidName, AfterLast, Blank;
    if pieces != [] {
      var p, rest := pieces[0], pieces[1..];
      CleanHasNoErrors(!StartsRecord(p), p.gap, rest);
      assert forall k :: 0 <= k < |rest| ==> rest[k] == pieces[k + 1];
      assert pieces == [p] + rest;
    }
  }

  ghost predicate CleanText(text: string, lead: string, pieces: seq<Piece>) {
    && text == lead + PiecesText(pieces) && Quiet(lead) && AllCut(pieces)
    && Within(pieces, 0) && Clean(lead, pieces)
  }

  /** A text is lexed without errors exactly when it can be cut into clean pieces within limits. */
  lemma CleanTextsExactly(text: string)
    ensures var r := LexFrom(text, 0, CLEAR, None, Lexed([], []));
      r.Ok? && r.value.errors == [] <==> exists lead, pieces :: CleanText(text, lead, pieces)
  {
    hide LexFrom, CutFrom, Quiet, AllCut, Within, Clean, ErrorsAfter, PiecesText, LexemesOf;
    var r := LexFrom(text, 0, CLEAR, None, Lexed([], []));
    if lead, pieces :| CleanText(text, lead, pieces) {
      CutTextIsLexed(lead, pieces);
      CleanMeans(lead, pieces);
    }
    if r.Ok? && r.value.errors == [] {
      if CutFrom(text, 0).None? {
        UncutFails(text, 0, None, Lexed([], []));
      }
      CutSpells(text, 0);
      var (lead, pieces) := CutFrom(text, 0).value;
      assert text[0..] == text;
      CutTextIsLexed(lead, pieces);
      CleanMeans(lead, pieces);
      assert CleanText(text, lead, pieces);
    }
  }

  lemma CleanMeans(lead: string, pieces: seq<Piece>)
    ensures ErrorsAfter(true, lead, pieces) == [] <==> Clean(lead, pieces)
  {
    CleanHasNoErrors(true, lead, pieces);
  }

  /** No error at all, of lexing or of structure: exactly the clean texts whose markers follow the
      grammar of documents. */
  lemma ErrorFreeDocuments(text: string)
    ensures var r := LexFrom(text, 0, CLEAR, None, Lexed([], []));
      r.Ok? && r.value.errors == [] && Finish(Run(r.value.lexemes)).errors == [] <==>
      exists lead, pieces :: CleanText(text, lead, pieces) && InGrammar(LexemesOf(pieces))
  {
    hide LexFrom, Quiet, AllCut, Within, Clean, ErrorsAfter, PiecesText, LexemesOf, InGrammar, Finish, Run;
    CleanTextsExactly(text);
    var r := LexFrom(text, 0, CLEAR, None, Lexed([], []));
    if r.Ok? {
      ExactGrammar(r.value.lexemes);
    }
    forall lead, pieces | CleanText(text, lead, pieces)
      ensures r == Ok(Lexed(LexemesOf(pieces), []))
    {
      CutTextIsLexed(lead, pieces);
      CleanMeans(lead, pieces);
    }
  }

  // ---------- writing

  /** A lexeme as written: its name in any case, blank space around the name, and blank space after a
      tag or around a record's value. */
  datatype Item = Item(lexeme: Lexeme, spelling: string, pad: string, lead: string, trail: string)

  function PieceOf(item: Item): Piece {
    match item.lexeme
    case Tag(_, closing) =>
      Piece(true, item.pad + ((if closing then "/" + item.pad else "") + item.spelling) + item.pad, item.lead)
    case Entry(record) =>
      Piece(false, item.pad + item.spelling + item.pad, item.lead + record.value + item.trail)
  }

  function PiecesOf(items: seq<Item>): seq<Piece> {
    seq(|items|, i requires 0 <= i < |items| => PieceOf(items[i]))
  }

  function Lexemes(items: seq<Item>): seq<Lexeme> {
    seq(|items|, i requires 0 <= i < |items| => items[i].lexeme)
  }

  predicate CapitalName(name: string) {
    ValidName(name) && forall i :: 0 <= i < |name| ==> !('a' <= name[i] <= 'z')
  }

  /** The name but for the case of its letters. */
  predicate Spells(written: string, name: string) {
    && |written| == |name|
    && forall i :: 0 <= i < |name| ==>
         || written[i] == name[i]
         || ('A' <= name[i] <= 'Z' && written[i] as int - 'a' as int == name[i] as int - 'A' as int)
  }

  predicate Names(item: Item, name: string) {
    CapitalName(name) && Spells(item.spelling, name)
  }

  predicate Writable(item: Item) {
    && Blank(item.pad) && Blank(item.lead) && Blank(item.trail)
    && match item.lexeme
       case Tag(name, _) => Names(item, name)
       case Entry(record) =>
         && Names(item, record.keyword) && Trimmed(record.value) && Quiet(record.value)
         && Utf8Size(record.value) <= MAX_RECORD_VALUE_BYTES
  }

  predicate AllWritable(items: seq<Item>) {
    forall i :: 0 <= i < |items| ==> Writable(items[i])
  }

  lemma SpelledUpper(written: string, name: string)
    requires CapitalName(name) && Spells(written, name)
    ensures ValidName(written) && Upper(written) == name
  {
    forall i | 0 <= i < |written|
      ensures NameChar(written[i]) && Upper(written)[i] == name[i]
    {
      assert NameChar(name[i]);
    }
  }

  /** What stands between the marker's characters is trimmed to the name. */
  lemma MarkerParts(pad: string, slash: bool, name: string)
    requires Blank(pad) && ValidName(name)
    ensures var raw := (if slash then "/" + pad else "") + name; var inner := pad + raw + pad;
      && Trim(inner) == raw && (slash <==> raw[0] == '/') && (slash ==> Trim(raw[1..]) == name)
      && '>' !in inner && ')' !in inner
  {
    hide Trim;
    NameParts(name);
    assert NameChar(name[0]) && NameChar(name[|name| - 1]);
    var raw := (if slash then "/" + pad else "") + name;
    assert raw[|raw| - 1] == name[|name| - 1] && (slash ==> raw[0] == '/');
    TrimFinds(pad, raw, pad);
    if slash {
      assert raw[1..] == pad + name + [];
      TrimFinds(pad, name, []);
    } else {
      assert "" + name == name;
    }
    assert forall c :: c in pad ==> IsBlank(c);
  }

  /** A written lexeme is a piece that says that lexeme. */
  lemma ItemIsPiece(item: Item)
    requires Writable(item)
    ensures var p := PieceOf(item);
      && WellCut(p) && GoodName(p) && LexemeOf(p) == item.lexeme
      && (p.tag ==> Blank(AfterLast(p.gap)))
      && (!p.tag ==> Utf8Size(Trim(p.gap)) <= MAX_RECORD_VALUE_BYTES)
  {
    hide Trim, Upper, ValidName, Utf8Size, Scanned, TrimStart, TrimEnd, CapitalName, Spells;
    var name := if item.lexeme.Tag? then item.lexeme.name else item.lexeme.record.keyword;
    SpelledUpper(item.spelling, name);
    MarkerParts(item.pad, item.lexeme.Tag? && item.lexeme.closing, item.spelling);
    assert "" + item.spelling == item.spelling;
    ItemGap(item);
  }

  lemma ItemGap(item: Item)
    requires Writable(item)
    ensures var p := PieceOf(item);
      Quiet(p.gap) && if p.tag then Blank(AfterLast(p.gap)) else Trim(p.gap) == item.lexeme.record.value
  {
    hide Names, Trim, Utf8Size;
    BlankIsQuiet(item.lead);
    BlankIsQuiet(item.trail);
    if item.lexeme.Entry? {
      ScannedConcat(item.lead, item.lexeme.record.value, CLEAR);
      ScannedConcat(item.lead + item.lexeme.record.value, item.trail, CLEAR);
      TrimFinds(item.lead, item.lexeme.record.value, item.trail);
    } else {
      AfterLastBlank(item.lead);
    }
  }

  lemma {:induction false} ItemsFit(items: seq<Item>, n: nat)
    requires AllWritable(items) && n + |items| < MAX_TOKENS
    ensures LexemesOf(PiecesOf(items)) == Lexemes(items) && Within(PiecesOf(items), n)
    decreases |items|
  {
    hide Writable, GoodName, LexemeOf, PieceOf, Trim, Utf8Size;
    if items != [] {
      ItemIsPiece(items[0]);
      ItemsFit(items[1..], n + 1);
      assert PiecesOf(items)[1..] == PiecesOf(items[1..]);
      assert Lexemes(items) == [items[0].lexeme] + Lexemes(items[1..]);
    }
  }

  /** Written lexemes are read back, whatever the blank space and whatever the quoted text. */
  lemma WrittenIsLexed(lead: string, items: seq<Item>)
    requires Blank(lead) && AllWritable(items) && |items| < MAX_TOKENS
    ensures LexFrom(lead + PiecesText(PiecesOf(items)), 0, CLEAR, None, Lexed([], [])) == Ok(Lexed(Lexemes(items), []))
  {
    hide LexFrom, Within, LexemesOf, ErrorsAfter, PiecesText, Quiet, WellCut, Writable, GoodName, LexemeOf, PieceOf;
    BlankIsQuiet(lead);
    AfterLastBlank(lead);
    forall i | 0 <= i < |items|
      ensures WellCut(PieceOf(items[i])) && GoodName(PieceOf(items[i]))
      ensures PieceOf(items[i]).tag ==> Blank(AfterLast(PieceOf(items[i]).gap))
    {
      ItemIsPiece(items[i]);
    }
    ItemsFit(items, 0);
    CutTextIsLexed(lead, PiecesOf(items));
    CleanHasNoErrors(true, lead, PiecesOf(items));
  }

  /** From text to document: a written document has no errors and its sections come back. */
  lemma WrittenDocumentIsRead(lead: string, items: seq<Item>, sections: seq<Section>)
    requires Blank(lead) && AllWritable(items) && |items| < MAX_TOKENS
    requires Named(sections) && Lexemes(items) == Text(sections)
    ensures var r := LexFrom(lead + PiecesText(PiecesOf(items)), 0, CLEAR, None, Lexed([], []));
      && r.Ok? && r.value.errors == []
      && Finish(Run(r.value.lexemes)).errors == [] && Finish(Run(r.value.lexemes)).sections == sections
  {
    hide LexFrom, PiecesText, PiecesOf;
    WrittenIsLexed(lead, items);
    TextIsRead(sections);
  }

  // ---------- quoted text

  /** Text in quotes, with a backslash before each quote and each backslash. */
  function Escaped(text: string): string {
    if text == [] then []
    else (if text[0] == '"' || text[0] == '\\' then ['\\', text[0]] else [text[0]]) + Escaped(text[1..])
  }

  function Quoted(text: string): string {
    ['"'] + Escaped(text) + ['"']
  }

  lemma {:induction false} EscapedStays(text: string)
    ensures Scanned(Escaped(text), Scan(true, false)) == Some(Scan(true, false))
  {
    if text != [] {
      var rest := Escaped(text[1..]);
      EscapedStays(text[1..]);
      if text[0] == '"' || text[0] == '\\' {
        assert Escaped(text)[1..] == [text[0]] + rest && ([text[0]] + rest)[1..] == rest;
      } else {
        assert Escaped(text)[1..] == rest;
      }
    }
  }

  /** Whatever stands in quotes opens no marker, and the quotes are balanced. */
  lemma QuotedIsQuiet(text: string)
    ensures Quiet(Quoted(text))
  {
    EscapedStays(text);
    var inside := Escaped(text) + ['"'];
    ScannedConcat(Escaped(text), ['"'], Scan(true, false));
    assert Quoted(text) == ['"'] + inside && Quoted(text)[1..] == inside;
    assert ['"'][1..] == [];
  }

  /** A record whose value is any text in quotes is read back, if the value is not too long. */
  lemma QuotedRecordIsRead(keyword: string, text: string)
    requires CapitalName(keyword) && Utf8Size(Quoted(text)) <= MAX_RECORD_VALUE_BYTES
    ensures LexFrom("(" + keyword + ") " + Quoted(text), 0, CLEAR, None, Lexed([], []))
            == Ok(Lexed([Entry(Record(keyword, Quoted(text)))], []))
  {
    hide LexFrom, Utf8Size, Quoted, Quiet, CapitalName, ValidName, PiecesText;
    var value := Quoted(text);
    var item := Item(Entry(Record(keyword, value)), keyword, "", " ", "");
    QuotedIsQuiet(text);
    QuotedIsTrimmed(text);
    WrittenIsLexed("", [item]);
    OnePiece(PieceOf(item));
    assert PiecesOf([item]) == [PieceOf(item)] && Lexemes([item]) == [item.lexeme];
    assert "" + PieceText(PieceOf(item)) == "(" + keyword + ") " + value;
  }

  lemma QuotedIsTrimmed(text: string)
    ensures Trimmed(Quoted(text))
  {
  }

  lemma OnePiece(p: Piece)
    ensures PiecesText([p]) == PieceText(p)
  {
    assert [p][1..] == [];
  }

  // ---------- stray text that goes unreported

  /** Stray text that ends in '>', and stray text after the last marker. */
  lemma StrayMissed()
    ensures LexFrom("<A>x><B>y", 0, CLEAR, None, Lexed([], []))
            == Ok(Lexed([Tag("A", false), Tag("B", false)], []))
  {
    hide LexFrom, Within, LexemesOf, ErrorsAfter, PiecesText, Utf8Size, Trim, Scanned, AfterLast;
    var a, b := Piece(true, "A", "x>"), Piece(true, "B", "y");
    NameIsTrimmed("", "A");
    NameIsTrimmed("", "B");
    assert "" + "A" == "A" && "" + "B" == "B" && Upper("A") == "A" && Upper("B") == "B";
    PlainIsQuiet("x>");
    PlainIsQuiet("y");
    PlainIsQuiet("");
    AfterLastOf("x", '>', "");
    AfterLastBlank("");
    assert "x" + ['>'] + "" == "x>";
    StrayPieces(a, b);
    CutTextIsLexed("", [a, b]);
  }

  lemma StrayPieces(a: Piece, b: Piece)
    requires a == Piece(true, "A", "x>") && b == Piece(true, "B", "y")
    requires GoodName(a) && GoodName(b) && LexemeOf(a) == Tag("A", false) && LexemeOf(b) == Tag("B", false)
    requires AfterLast("x>") == ""
    ensures "" + PiecesText([a, b]) == "<A>x><B>y"
    ensures LexemesOf([a, b]) == [Tag("A", false), Tag("B", false)]
    ensures ErrorsAfter(true, "", [a, b]) == [] && Within([a, b], 0)
  {
    hide GoodName, LexemeOf, LexemesOf, ErrorsAfter, PiecesText, Within, AfterLast;
    var both, one, none: seq<Piece> := [a, b], [b], [];
    assert both[1..] == one && one[1..] == none;
    Unrolled(both, true, "", 0);
    Unrolled(one, true, "x>", 1);
    Unrolled(none, true, "y", 2);
    Ahead(both, true, "");
    Ahead(one, true, "x>");
    AfterLastBlank("");
    StrayTexts(a, b);
  }

  lemma StrayTexts(a: Piece, b: Piece)
    requires a == Piece(true, "A", "x>") && b == Piece(true, "B", "y")
    ensures "" + (PieceText(a) + (PieceText(b) + "")) == "<A>x><B>y"
  {
    assert PieceText(a) == "<A>x>" && PieceText(b) == "<B>y";
  }
}
