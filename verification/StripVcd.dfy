/** strip.py: reducing a value change dump to the requested signals (IEEE 1364-2005, section 18.2). */
module StripVcd {

  datatype Option<T> = None | Some(value: T)

  // ---- lines, as the tool's patterns classify them ----

  /** The reading of a line in the header.  Declarations and scope lines are whole sections. */
  datatype Head =
    | VarDecl(id: string, name: string)   // $var ... $end
    | ScopeDecl(scope: string)            // $scope ... $end
    | UpScope                             // $upscope $end
    | TimescaleInline                     // begins with $timescale and a value, such as 1ps or 10 ps
    | TimescaleStart                      // begins with $timescale otherwise
    | HeaderEnd                           // begins with $dumpvars or $enddefinitions
    | OtherSection                        // begins with another keyword, such as $date
    | Text                                // no keyword

  /** The reading of a line in the body. */
  datatype Body =
    | Timestamp(time: string)
    | Scalar(value: char, id: string)                     // 1!
    | Vector(base: char, digits: string, id: string)      // b0101 !
    | OtherBody(word: Option<string>)                     // the line, if it is a single word

  /** `ends` says whether $end occurs on the line; that is what closes a section. */
  datatype Line = Line(head: Head, ends: bool, body: Body)

  predicate Declares(line: Line) { line.head.VarDecl? || line.head.ScopeDecl? || line.head.UpScope? }

  predicate Ends(line: Line) { line.ends || Declares(line) }

  predicate Digit(c: char) { c == 'x' || c == '0' || c == '1' }

  /** The identifier matched by the pattern of load_values: an optional value of digits x, 0
      and 1, then a word up to the end of the line. */
  function MatchedId(b: Body): Option<string>
  {
    match b
    case Timestamp(_) => None
    case Scalar(c, id) => Some(if Digit(c) && id != "" then id else [c] + id)
    case Vector(base, digits, id) =>
      if base == 'b' && digits != "" && id != "" && (forall i :: 0 <= i < |digits| ==> Digit(digits[i])) then Some(id)
      else None
    case OtherBody(word) => word
  }

  // ---- the reference reading of a dump ----

  function FullName(scopes: seq<string>, name: string): string
  {
    if scopes == [] then name else scopes[0] + "." + FullName(scopes[1..], name)
  }

  /** These two laws determine full names: one scope in front, and nesting. */
  lemma OneScope(scope: string, name: string)
    ensures FullName([], name) == name && FullName([scope], name) == scope + "." + name
  {
    assert [scope][1..] == [];
  }

  lemma {:induction false} Nested(outer: seq<string>, inner: seq<string>, name: string)
    ensures FullName(outer + inner, name) == FullName(outer, FullName(inner, name))
  {
    if outer == [] {
      assert outer + inner == inner;
    } else {
      assert (outer + inner)[1..] == outer[1..] + inner;
      Nested(outer[1..], inner, name);
    }
  }

  function Parent(scopes: seq<string>): seq<string>
  {
    if scopes == [] then [] else scopes[..|scopes| - 1]
  }

  lemma LeavesLast(scopes: seq<string>, scope: string)
    ensures Parent(scopes + [scope]) == scopes && Parent([]) == []
  {}

  /** A signal's full name and its identifier in the body; aliases share an identifier. */
  datatype Decl = Decl(name: string, id: string)

  /** What a header declares, in order. */
  datatype Item = Enter(scope: string) | Leave | Signal(id: string, name: string)

  datatype Dump = Dump(items: seq<Item>, body: seq<Line>)

  /** A dump is a sequence of sections, each of which runs from its keyword to the next $end.
      `inside` a section every line is text of it, whatever it looks like. */
  function Read(lines: seq<Line>, inside: bool): Dump
  {
    if lines == [] then Dump([], [])
    else
      var line, rest := lines[0], lines[1..];
      if inside then Read(rest, !Ends(line))
      else
        match line.head
        case VarDecl(id, name) => WithItem(Signal(id, name), Read(rest, false))
        case ScopeDecl(scope) => WithItem(Enter(scope), Read(rest, false))
        case UpScope => WithItem(Leave, Read(rest, false))
        case HeaderEnd => Dump([], rest)
        case Text => Read(rest, false)
        case _ => Read(rest, !line.ends)
  }

  function WithItem(item: Item, d: Dump): Dump { d.(items := [item] + d.items) }

  /** The signals a header declares, by full name. */
  function Decls(items: seq<Item>, scopes: seq<string>): seq<Decl>
  {
    if items == [] then []
    else
      match items[0]
      case Enter(scope) => Decls(items[1..], scopes + [scope])
      case Leave => Decls(items[1..], Parent(scopes))
      case Signal(id, name) => [Decl(FullName(scopes, name), id)] + Decls(items[1..], scopes)
  }

  /** The header without the signals that are not requested. */
  function Only(items: seq<Item>, signals: seq<string>, scopes: seq<string>): seq<Item>
  {
    if items == [] then []
    else
      var rest := items[1..];
      match items[0]
      case Enter(scope) => [items[0]] + Only(rest, signals, scopes + [scope])
      case Leave => [items[0]] + Only(rest, signals, Parent(scopes))
      case Signal(_, name) =>
        if FullName(scopes, name) in signals then [items[0]] + Only(rest, signals, scopes)
        else Only(rest, signals, scopes)
  }

  datatype Value = Bit(c: char) | Bits(base: char, digits: string)

  /** The line gives the identifier a new value. */
  predicate Changes(line: Line, id: string)
  {
    (line.body.Scalar? || line.body.Vector?) && line.body.id == id
  }

  function NewValue(line: Line): Value
    requires line.body.Scalar? || line.body.Vector?
  {
    match line.body
    case Scalar(c, _) => Bit(c)
    case Vector(base, digits, _) => Bits(base, digits)
  }

  function TimeAfter(line: Line, now: Option<string>): Option<string>
  {
    if line.body.Timestamp? then Some(line.body.time) else now
  }

  /** The values a signal takes, each with the time it is in force from. */
  function Values(lines: seq<Line>, id: string, now: Option<string>): seq<(Option<string>, Value)>
  {
    if lines == [] then []
    else
      var later := Values(lines[1..], id, TimeAfter(lines[0], now));
      if Changes(lines[0], id) then [(now, NewValue(lines[0]))] + later else later
  }

  /** The time after the lines: that of the last timestamp among them. */
  function TimeAt(lines: seq<Line>, now: Option<string>): Option<string>
  {
    if lines == [] then now
    else if lines[|lines| - 1].body.Timestamp? then Some(lines[|lines| - 1].body.time)
    else TimeAt(lines[..|lines| - 1], now)
  }

  /** One more line: a change adds its value at the time of the last timestamp before it. */
  lemma {:induction false} OneMoreValue(lines: seq<Line>, line: Line, id: string, now: Option<string>)
    ensures Values(lines + [line], id, now)
         == Values(lines, id, now) + if Changes(line, id) then [(TimeAt(lines, now), NewValue(line))] else []
  {
    hide NewValue;
    if lines == [] {
      assert [] + [line] == [line] && [line][1..] == [];
    } else {
      assert (lines + [line])[1..] == lines[1..] + [line];
      OneMoreValue(lines[1..], line, id, TimeAfter(lines[0], now));
      TimePasses(lines, now);
    }
  }

  lemma {:induction false} TimePasses(lines: seq<Line>, now: Option<string>)
    requires lines != []
    ensures TimeAt(lines, now) == TimeAt(lines[1..], TimeAfter(lines[0], now))
  {
    var m := |lines| - 1;
    if m > 0 {
      assert lines[1..][..m - 1] == lines[..m][1..];
      TimePasses(lines[..m], now);
    }
  }

  /** The time is that of the last timestamp, if there is one. */
  lemma {:induction false} LastTimestamp(lines: seq<Line>, i: nat, now: Option<string>)
    requires i <= |lines| && forall j :: i <= j < |lines| ==> !lines[j].body.Timestamp?
    ensures i == 0 ==> TimeAt(lines, now) == now
    ensures i > 0 && lines[i - 1].body.Timestamp? ==> TimeAt(lines, now) == Some(lines[i - 1].body.time)
    decreases |lines|
  {
    if i < |lines| { LastTimestamp(lines[..|lines| - 1], i, now); }
  }

  /** Which lines change an identifier, and that a value keeps all that such a line says. */
  lemma WholeValue(line: Line, other: Line, id: string)
    ensures Changes(line, id) <==>
            (exists c :: line.body == Scalar(c, id)) || exists base, digits :: line.body == Vector(base, digits, id)
    ensures Changes(line, id) && Changes(other, id) ==>
              (NewValue(line) == NewValue(other) <==> line.body == other.body)
  {
    if Changes(line, id) && line.body.Scalar? { assert line.body == Scalar(line.body.value, id); }
    if Changes(line, id) && line.body.Vector? { assert line.body == Vector(line.body.base, line.body.digits, id); }
  }

  // ---- the tool ----

  /** What set_ids writes and finds, and the lines it leaves unread. */
  datatype Header = Header(out: seq<Line>, decls: seq<Decl>, rest: seq<Line>)

  function StripHeader(lines: seq<Line>, signals: seq<string>, scopes: seq<string>, timescaleOnNext: bool): Header
  {
    if lines == [] then Header([], [], [])
    else
      var line, rest := lines[0], lines[1..];
      match line.head
      case VarDecl(id, name) =>
        var h := StripHeader(rest, signals, scopes, timescaleOnNext);
        var full := FullName(scopes, name);
        if full in signals then h.(out := [line] + h.out, decls := [Decl(full, id)] + h.decls) else h
      case ScopeDecl(scope) => Writing(line, StripHeader(rest, signals, scopes + [scope], timescaleOnNext))
      case UpScope => Writing(line, StripHeader(rest, signals, Parent(scopes), timescaleOnNext))
      case _ =>
        if line.head.TimescaleInline? || timescaleOnNext then Writing(line, StripHeader(rest, signals, scopes, false))
        else if line.head.TimescaleStart? then Writing(line, StripHeader(rest, signals, scopes, true))
        else if line.head.HeaderEnd? then Header([line], [], rest)
        else StripHeader(rest, signals, scopes, false)
  }

  function Writing(line: Line, h: Header): Header { h.(out := [line] + h.out) }

  /** The dictionary of set_ids: the last alias of an identifier wins. */
  function Ids(decls: seq<Decl>): (ids: map<string, string>)
    ensures forall id :: id in ids <==> exists d :: d in decls && d.id == id
  {
    if decls == [] then map[]
    else
      assert forall d :: d in decls <==> d == decls[0] || d in decls[1..];
      map[decls[0].id := decls[0].name] + Ids(decls[1..])
  }

  predicate Keeps(line: Line, ids: map<string, string>)
  {
    line.body.Timestamp? || (MatchedId(line.body).Some? && MatchedId(line.body).value in ids)
  }

  function KeptLines(lines: seq<Line>, ids: map<string, string>): seq<Line>
  {
    if lines == [] then []
    else
      var kept := KeptLines(lines[1..], ids);
      if Keeps(lines[0], ids) then [lines[0]] + kept else kept
  }

  function Strip(file: seq<Line>, signals: seq<string>): seq<Line>
  {
    var h := StripHeader(file, signals, [], false);
    h.out + KeptLines(h.rest, Ids(h.decls))
  }

  method SetIds(file: seq<Line>, signals: seq<string>) returns (ids: map<string, string>, of: seq<Line>, next: nat)
    ensures var h := StripHeader(file, signals, [], false);
            next <= |file| && ids == Ids(h.decls) && of == h.out && file[next..] == h.rest
  {
    hide FullName, Parent;
    ghost var all := StripHeader(file, signals, [], false);
    var timescaleOnNext := false;
    var scopes: seq<string> := [];
    ids, of, next := map[], [], 0;
    while next < |file|
      invariant next <= |file|
      invariant Remaining(file[next..], signals, scopes, timescaleOnNext, of, ids, all)
    {
      var line := file[next];
      ghost var rest := file[next + 1..];
      assert file[next..] == [line] + rest;
      OneLine(line, rest, signals, scopes, timescaleOnNext, of, ids, all);
      next := next + 1;
      match line.head {
        case VarDecl(id, name) =>
          var full := FullName(scopes, name);
          if full in signals {
            of := of + [line];
            ids := ids[id := full];
          }
        case ScopeDecl(scope) =>
          scopes := scopes + [scope];
          of := of + [line];
        case UpScope =>
          scopes := Parent(scopes);
          of := of + [line];
        case _ =>
          if line.head.TimescaleInline? || timescaleOnNext {
            of := of + [line];
            if timescaleOnNext {
              timescaleOnNext := false;
            }
          } else if line.head.TimescaleStart? {
            timescaleOnNext := true;
            of := of + [line];
          } else if line.head.HeaderEnd? {
            of := of + [line];
            return;
          }
      }
    }
  }

  /** What is done so far, followed by what the remaining lines will give, is the whole. */
  ghost predicate Remaining(lines: seq<Line>, signals: seq<string>, scopes: seq<string>, onNext: bool,
                            of: seq<Line>, ids: map<string, string>, all: Header)
  {
    var h := StripHeader(lines, signals, scopes, onNext);
    of + h.out == all.out && ids + Ids(h.decls) == Ids(all.decls) && h.rest == all.rest
  }

  lemma OneLine(line: Line, rest: seq<Line>, signals: seq<string>, scopes: seq<string>, onNext: bool,
                of: seq<Line>, ids: map<string, string>, all: Header)
    requires Remaining([line] + rest, signals, scopes, onNext, of, ids, all)
    ensures line.head.VarDecl? ==>
              if FullName(scopes, line.head.name) in signals then
                Remaining(rest, signals, scopes, onNext, of + [line],
                          ids[line.head.id := FullName(scopes, line.head.name)], all)
              else Remaining(rest, signals, scopes, onNext, of, ids, all)
    ensures line.head.ScopeDecl? ==> Remaining(rest, signals, scopes + [line.head.scope], onNext, of + [line], ids, all)
    ensures line.head.UpScope? ==> Remaining(rest, signals, Parent(scopes), onNext, of + [line], ids, all)
    ensures !line.head.VarDecl? && !line.head.ScopeDecl? && !line.head.UpScope? ==>
              if line.head.TimescaleInline? || onNext
              then Remaining(rest, signals, scopes, false, of + [line], ids, all)
              else if line.head.TimescaleStart? then Remaining(rest, signals, scopes, true, of + [line], ids, all)
              else if line.head.HeaderEnd? then of + [line] == all.out && ids == Ids(all.decls) && rest == all.rest
              else Remaining(rest, signals, scopes, false, of, ids, all)
  {
    hide FullName, Parent, Ids;
    assert ([line] + rest)[1..] == rest;
    var h := StripHeader([line] + rest, signals, scopes, onNext);
    if h.out != [] { assert of + h.out == (of + [h.out[0]]) + h.out[1..]; }
    IdsOfNone(ids);
    if line.head.VarDecl? {
      IdsOfFirst(ids, Decl(FullName(scopes, line.head.name), line.head.id),
                 StripHeader(rest, signals, scopes, onNext).decls);
    }
  }

  lemma IdsOfNone(ids: map<string, string>)
    ensures ids + Ids([]) == ids
  {}

  lemma IdsOfFirst(ids: map<string, string>, d: Decl, ds: seq<Decl>)
    ensures ids + Ids([d] + ds) == ids[d.id := d.name] + Ids(ds)
  {
    hide Ids;
    IdsStep(d, ds);
    AddFirst(ids, d.id, d.name, Ids(ds));
  }

  lemma IdsStep(d: Decl, ds: seq<Decl>)
    ensures Ids([d] + ds) == map[d.id := d.name] + Ids(ds)
  {
    assert ([d] + ds)[1..] == ds;
  }

  lemma AddFirst(ids: map<string, string>, k: string, v: string, rest: map<string, string>)
    ensures ids + (map[k := v] + rest) == ids[k := v] + rest
  {}

  method LoadValues(file: seq<Line>, start: nat, ids: map<string, string>, of_in: seq<Line>) returns (of: seq<Line>)
    requires start <= |file|
    ensures of == of_in + KeptLines(file[start..], ids)
  {
    of := of_in;
    var i := start;
    while i < |file|
      invariant start <= i <= |file|
      invariant of + KeptLines(file[i..], ids) == of_in + KeptLines(file[start..], ids)
    {
      var line := file[i];
      assert file[i..][1..] == file[i + 1..];
      if line.body.Timestamp? {
        of := of + [line];
      } else {
        var matched := MatchedId(line.body);
        if matched.Some? && matched.value in ids {
          of := of + [line];
        }
      }
      i := i + 1;
    }
  }

  method StripFile(file: seq<Line>, signals: seq<string>) returns (of: seq<Line>)
    ensures of == Strip(file, signals)
  {
    var ids, next;
    ids, of, next := SetIds(file, signals);
    of := LoadValues(file, next, ids, of);
  }

  // ---- stripping twice ----

  /** The header ends before the lines do. */
  predicate Finishes(lines: seq<Line>, onNext: bool)
  {
    lines != [] &&
    match lines[0].head
    case HeaderEnd => !onNext || Finishes(lines[1..], false)
    case TimescaleStart => Finishes(lines[1..], !onNext)
    case VarDecl(_, _) => Finishes(lines[1..], onNext)
    case ScopeDecl(_) => Finishes(lines[1..], onNext)
    case UpScope => Finishes(lines[1..], onNext)
    case _ => Finishes(lines[1..], false)
  }

  lemma {:induction false} NoEnd(lines: seq<Line>, signals: seq<string>, scopes: seq<string>, onNext: bool)
    requires !Finishes(lines, onNext)
    ensures StripHeader(lines, signals, scopes, onNext).rest == []
  {
    hide FullName, Parent;
    if lines != [] {
      var rest := lines[1..];
      match lines[0].head
      case VarDecl(id, name) => NoEnd(rest, signals, scopes, onNext);
      case ScopeDecl(scope) => NoEnd(rest, signals, scopes + [scope], onNext);
      case UpScope => NoEnd(rest, signals, Parent(scopes), onNext);
      case HeaderEnd => NoEnd(rest, signals, scopes, false);
      case TimescaleStart => NoEnd(rest, signals, scopes, !onNext);
      case _ => NoEnd(rest, signals, scopes, false);
    }
  }

  lemma First(lines: seq<Line>, x: seq<Line>)
    requires lines != []
    ensures lines + x != [] && (lines + x)[0] == lines[0] && (lines + x)[1..] == lines[1..] + x
  {}

  lemma Tail(line: Line, out: seq<Line>, x: seq<Line>)
    ensures ([line] + out) + x == [line] + (out + x) && (([line] + out) + x)[1..] == out + x
  {}

  /** Stripping the stripped header again, with anything after it, changes nothing. */
  lemma {:induction false} StripAgain(lines: seq<Line>, signals: seq<string>, scopes: seq<string>, onNext: bool,
                                      x: seq<Line>)
    requires x == [] || Finishes(lines, onNext)
    ensures var h := StripHeader(lines, signals, scopes, onNext);
            StripHeader(h.out + x, signals, scopes, onNext) == Header(h.out, h.decls, x)
  {
    hide FullName, Parent;
    if lines != [] {
      var line, rest := lines[0], lines[1..];
      match line.head {
        case VarDecl(id, name) =>
          StripAgain(rest, signals, scopes, onNext, x);
          Tail(line, StripHeader(rest, signals, scopes, onNext).out, x);
        case ScopeDecl(scope) =>
          StripAgain(rest, signals, scopes + [scope], onNext, x);
          Tail(line, StripHeader(rest, signals, scopes + [scope], onNext).out, x);
        case UpScope =>
          StripAgain(rest, signals, Parent(scopes), onNext, x);
          Tail(line, StripHeader(rest, signals, Parent(scopes), onNext).out, x);
        case _ =>
          var next := line.head.TimescaleStart? && !onNext;
          if onNext || !line.head.HeaderEnd? { StripAgain(rest, signals, scopes, next, x); }
          Tail(line, StripHeader(rest, signals, scopes, next).out, x);
          Tail(line, [], x);
      }
    }
  }

  lemma {:induction false} KeepAgain(lines: seq<Line>, ids: map<string, string>)
    ensures KeptLines(KeptLines(lines, ids), ids) == KeptLines(lines, ids)
  {
    if lines != [] {
      KeepAgain(lines[1..], ids);
      if Keeps(lines[0], ids) { assert KeptLines(lines, ids)[1..] == KeptLines(lines[1..], ids); }
    }
  }

  /** Stripping is idempotent. */
  lemma StripIdempotent(file: seq<Line>, signals: seq<string>)
    ensures Strip(Strip(file, signals), signals) == Strip(file, signals)
  {
    var h := StripHeader(file, signals, [], false);
    var ids := Ids(h.decls);
    var kept := KeptLines(h.rest, ids);
    if !Finishes(file, false) { NoEnd(file, signals, [], false); }
    StripAgain(file, signals, [], false, kept);
    KeepAgain(h.rest, ids);
  }

  // ---- what headers are kept ----

  /** The requested declarations. */
  function Requested(decls: seq<Decl>, signals: seq<string>): seq<Decl>
  {
    if decls == [] then []
    else
      var later := Requested(decls[1..], signals);
      if decls[0].name in signals then [decls[0]] + later else later
  }

  /** The tool looks for nothing on such a line. */
  predicate Idle(line: Line) { line.head.Text? || line.head.OtherSection? }

  predicate Timescale(line: Line) { line.head.TimescaleInline? || line.head.TimescaleStart? }

  /** Whether a section is open after a line that declares nothing. */
  predicate InsideAfter(line: Line, inside: bool) { !line.ends && (inside || !line.head.Text?) }

  /** A header of the standard, from a position on: sections one after the other, possibly with
      blank lines between them, at most one of them a $timescale; no line of a section's text
      begins with a keyword the tool looks for, and the last line is the one that ends the header. */
  predicate IsHeader(lines: seq<Line>, inside: bool, timescale: bool)
  {
    lines != [] &&
    var line, rest := lines[0], lines[1..];
    if inside || Idle(line) then Idle(line) && IsHeader(rest, InsideAfter(line, inside), timescale)
    else
      match line.head
      case VarDecl(_, _) => IsHeader(rest, false, timescale)
      case ScopeDecl(_) => IsHeader(rest, false, timescale)
      case UpScope => IsHeader(rest, false, timescale)
      case HeaderEnd => rest == []
      case _ => timescale && IsHeader(rest, !line.ends, false)
  }

  /** What becomes of a header. */
  datatype Fate =
    | Whole     // all is well
    | Cut       // a section is written without its end
    | Overrun   // the end of the header is taken for the value of a timescale

  /** The tool keeps a $timescale line and, unless it saw the value on it, the next line that is
      not a declaration (`valueNext`).  It keeps no third line. */
  function FateOf(lines: seq<Line>, inside: bool, valueNext: bool): Fate
  {
    if lines == [] then Whole
    else
      var line, rest := lines[0], lines[1..];
      if !inside && Declares(line) then FateOf(rest, false, valueNext)
      else if valueNext then
        if !inside && line.head.HeaderEnd? then Overrun
        else if InsideAfter(line, inside) then Cut
        else FateOf(rest, false, false)
      else if inside then FateOf(rest, !line.ends, false)
      else
        match line.head
        case HeaderEnd => Whole
        case TimescaleInline => if line.ends then FateOf(rest, false, false) else Cut
        case TimescaleStart => FateOf(rest, !line.ends, true)
        case _ => FateOf(rest, InsideAfter(line, false), false)
  }

  /** The stripped dump reads as the original without the other signals. */
  ghost predicate Kept(file: seq<Line>, signals: seq<string>)
  {
    var d := Read(file, false);
    Read(Strip(file, signals), false)
      == Dump(Only(d.items, signals, []), KeptLines(d.body, Ids(Requested(Decls(d.items, []), signals))))
  }

  /** What the tool writes for a part of a header, followed by x, reads as the part itself
      without the other signals; the body is left unread.  In the output a section is open only
      between the two lines of a $timescale. */
  ghost predicate PartKept(lines: seq<Line>, body: seq<Line>, signals: seq<string>, scopes: seq<string>,
                           inside: bool, valueNext: bool, x: seq<Line>)
  {
    var h, d := StripHeader(lines + body, signals, scopes, valueNext), Read(lines + body, inside);
    && h.rest == d.body == body
    && h.decls == Requested(Decls(d.items, scopes), signals)
    && Read(h.out + x, inside && valueNext) == Dump(Only(d.items, signals, scopes), x)
  }

  /** The scopes after a line outside any section. */
  function ScopesAfter(line: Line, scopes: seq<string>): seq<string>
  {
    match line.head
    case ScopeDecl(scope) => scopes + [scope]
    case UpScope => Parent(scopes)
    case _ => scopes
  }

  lemma DeclarationKept(lines: seq<Line>, body: seq<Line>, signals: seq<string>, scopes: seq<string>,
                        valueNext: bool, x: seq<Line>)
    requires lines != [] && Declares(lines[0])
    requires PartKept(lines[1..], body, signals, ScopesAfter(lines[0], scopes), false, valueNext, x)
    ensures PartKept(lines, body, signals, scopes, false, valueNext, x)
  {
    hide FullName, Parent;
    First(lines, body);
    Tail(lines[0], StripHeader(lines[1..] + body, signals, ScopesAfter(lines[0], scopes), valueNext).out, x);
  }

  lemma OtherLineKept(lines: seq<Line>, body: seq<Line>, signals: seq<string>, scopes: seq<string>,
                      inside: bool, valueNext: bool, x: seq<Line>)
    requires lines != [] && !Declares(lines[0]) && !lines[0].head.HeaderEnd? && (inside ==> Idle(lines[0]))
    requires InsideAfter(lines[0], inside) ==> !valueNext && !lines[0].head.TimescaleInline?
    requires PartKept(lines[1..], body, signals, scopes,
                      InsideAfter(lines[0], inside), ValueAfter(lines[0], valueNext), x)
    ensures PartKept(lines, body, signals, scopes, inside, valueNext, x)
  {
    hide FullName, Parent, Decls, Requested, Only;
    First(lines, body);
    Tail(lines[0], StripHeader(lines[1..] + body, signals, scopes, ValueAfter(lines[0], valueNext)).out, x);
  }

  predicate ValueAfter(line: Line, valueNext: bool) { line.head.TimescaleStart? && !valueNext }

  lemma {:induction false} WholePart(lines: seq<Line>, body: seq<Line>, signals: seq<string>, scopes: seq<string>,
                                     inside: bool, valueNext: bool, timescale: bool, x: seq<Line>)
    requires IsHeader(lines, inside, timescale) && FateOf(lines, inside, valueNext) == Whole
    ensures PartKept(lines, body, signals, scopes, inside, valueNext, x)
  {
    hide PartKept;
    var line, rest := lines[0], lines[1..];
    if !inside && Declares(line) {
      WholePart(rest, body, signals, ScopesAfter(line, scopes), false, valueNext, timescale, x);
      DeclarationKept(lines, body, signals, scopes, valueNext, x);
    } else if !inside && line.head.HeaderEnd? {
      EndKept(line, body, signals, scopes, x);
      assert lines == [line];
    } else {
      var after := ValueAfter(line, valueNext);
      WholePart(rest, body, signals, scopes, InsideAfter(line, inside), after, timescale && !Timescale(line), x);
      OtherLineKept(lines, body, signals, scopes, inside, valueNext, x);
    }
  }

  lemma EndKept(end: Line, body: seq<Line>, signals: seq<string>, scopes: seq<string>, x: seq<Line>)
    requires end.head.HeaderEnd?
    ensures PartKept([end], body, signals, scopes, false, false, x)
  {
    First([end], body);
    assert [end][1..] + body == body;
    Tail(end, [], x);
  }

  lemma {:induction false} NoTimescale(lines: seq<Line>, inside: bool)
    requires IsHeader(lines, inside, false)
    ensures FateOf(lines, inside, false) == Whole
  {
    var line, rest := lines[0], lines[1..];
    if inside || Idle(line) { NoTimescale(rest, InsideAfter(line, inside)); }
    else if !line.head.HeaderEnd? { NoTimescale(rest, false); }
  }

  /** The first line written is a declaration or the end of the header. */
  lemma {:induction false} FirstWritten(lines: seq<Line>, body: seq<Line>, signals: seq<string>, scopes: seq<string>,
                                        inside: bool)
    requires IsHeader(lines, inside, false)
    ensures var out := StripHeader(lines + body, signals, scopes, false).out;
            out != [] && (Declares(out[0]) || (out[0].head.HeaderEnd? && out == [out[0]]))
  {
    hide FullName, Parent;
    var line, rest := lines[0], lines[1..];
    First(lines, body);
    if inside || Idle(line) {
      FirstWritten(rest, body, signals, scopes, InsideAfter(line, inside));
    } else if line.head.VarDecl? {
      FirstWritten(rest, body, signals, scopes, false);
    }
  }

  /** Inside an open section the next line written is lost. */
  lemma Swallowed(lines: seq<Line>, signals: seq<string>, scopes: seq<string>, inside: bool, t: Line)
    requires IsHeader(lines, inside, false) && t.head.Text?
    ensures var h, d := StripHeader(lines + [t], signals, scopes, false), Read(lines + [t], inside);
            && h.rest == d.body == [t]
            && Read(h.out + [t], true) != Dump(Only(d.items, signals, scopes), [t])
  {
    hide FullName, Parent, IsHeader, Decls, Requested, FateOf, StripHeader, Only;
    var out := StripHeader(lines + [t], signals, scopes, false).out;
    NoTimescale(lines, inside);
    WholePart(lines, [t], signals, scopes, inside, false, false, [t]);
    FirstWritten(lines, [t], signals, scopes, inside);
    First(out, [t]);
    var d := Read(out[1..] + [t], false);
    assert |Read(out + [t], false).items| != |d.items| || !Declares(out[0]);
    if !Declares(out[0]) {
      assert out[1..] + [t] == [t];
      OneText(t);
    }
  }

  lemma SameTail<T>(x: T, a: seq<T>, b: seq<T>)
    ensures [x] + a == [x] + b <==> a == b
  {
    assert ([x] + a)[1..] == a && ([x] + b)[1..] == b;
  }

  lemma OneText(t: Line)
    requires t.head.Text?
    ensures Read([t], false) == Read([t], true) == Dump([], [])
  {}

  /** What the tool writes for a part of a header, before a single timestamp, reads otherwise:
      a declaration or the body is lost. */
  ghost predicate PartLost(lines: seq<Line>, t: Line, signals: seq<string>, scopes: seq<string>,
                           inside: bool, valueNext: bool, fate: Fate)
  {
    var h, d := StripHeader(lines + [t], signals, scopes, valueNext), Read(lines + [t], inside);
    && d.body == [t]
    && (fate == Cut ==>
          h.rest == [t] && Read(h.out + [t], inside && valueNext) != Dump(Only(d.items, signals, scopes), [t]))
    && (fate == Overrun ==> h.rest == [] && Read(h.out, inside && valueNext).body == [])
  }

  lemma {:induction false} LostPart(lines: seq<Line>, signals: seq<string>, scopes: seq<string>,
                                    inside: bool, valueNext: bool, timescale: bool, t: Line)
    requires IsHeader(lines, inside, timescale) && FateOf(lines, inside, valueNext) != Whole
    requires t.head.Text? && (valueNext ==> !timescale)
    ensures PartLost(lines, t, signals, scopes, inside, valueNext, FateOf(lines, inside, valueNext))
  {
    hide PartLost;
    var line, rest := lines[0], lines[1..];
    if !inside && Declares(line) {
      LostPart(rest, signals, ScopesAfter(line, scopes), false, valueNext, timescale, t);
      LostAfterDeclaration(lines, t, signals, scopes, valueNext, FateOf(lines, inside, valueNext));
    } else if !inside && line.head.HeaderEnd? {
      assert lines == [line];
      OverrunReads(line, t, signals, scopes);
    } else if InsideAfter(line, inside) && (valueNext || line.head.TimescaleInline?) {
      CutLost(lines, t, signals, scopes, inside, valueNext);
    } else {
      LostPart(rest, signals, scopes, InsideAfter(line, inside), ValueAfter(line, valueNext),
               timescale && !Timescale(line), t);
      LostAfterOther(lines, t, signals, scopes, inside, valueNext, FateOf(lines, inside, valueNext));
    }
  }

  lemma LostAfterDeclaration(lines: seq<Line>, t: Line, signals: seq<string>, scopes: seq<string>,
                             valueNext: bool, fate: Fate)
    requires lines != [] && Declares(lines[0])
    requires PartLost(lines[1..], t, signals, ScopesAfter(lines[0], scopes), false, valueNext, fate)
    ensures PartLost(lines, t, signals, scopes, false, valueNext, fate)
  {
    hide FullName, Parent;
    var out := StripHeader(lines[1..] + [t], signals, ScopesAfter(lines[0], scopes), valueNext).out;
    First(lines, [t]);
    Tail(lines[0], out, [t]);
    Tail(lines[0], out, []);
    var items := Only(Read(lines[1..] + [t], false).items, signals, ScopesAfter(lines[0], scopes));
    var read := Read(out + [t], false).items;
    forall item ensures [item] + read == [item] + items <==> read == items { SameTail(item, read, items); }
  }

  lemma LostAfterOther(lines: seq<Line>, t: Line, signals: seq<string>, scopes: seq<string>,
                       inside: bool, valueNext: bool, fate: Fate)
    requires lines != [] && !Declares(lines[0]) && !lines[0].head.HeaderEnd? && (inside ==> Idle(lines[0]))
    requires InsideAfter(lines[0], inside) ==> !valueNext && !lines[0].head.TimescaleInline?
    requires PartLost(lines[1..], t, signals, scopes,
                      InsideAfter(lines[0], inside), ValueAfter(lines[0], valueNext), fate)
    ensures PartLost(lines, t, signals, scopes, inside, valueNext, fate)
  {
    hide FullName, Parent, Only;
    var out := StripHeader(lines[1..] + [t], signals, scopes, ValueAfter(lines[0], valueNext)).out;
    First(lines, [t]);
    Tail(lines[0], out, [t]);
    Tail(lines[0], out, []);
  }

  /** A line that leaves a section open in the output. */
  lemma CutLost(lines: seq<Line>, t: Line, signals: seq<string>, scopes: seq<string>, inside: bool, valueNext: bool)
    requires lines != [] && !Declares(lines[0]) && !lines[0].head.HeaderEnd? && t.head.Text?
    requires inside ==> Idle(lines[0])
    requires InsideAfter(lines[0], inside) && (valueNext || lines[0].head.TimescaleInline?)
    requires IsHeader(lines[1..], true, false)
    ensures PartLost(lines, t, signals, scopes, inside, valueNext, Cut)
  {
    hide FullName, Parent, Only, IsHeader;
    Swallowed(lines[1..], signals, scopes, true, t);
    First(lines, [t]);
    Tail(lines[0], StripHeader(lines[1..] + [t], signals, scopes, false).out, [t]);
  }

  lemma OverrunReads(end: Line, t: Line, signals: seq<string>, scopes: seq<string>)
    requires end.head.HeaderEnd? && t.head.Text?
    ensures PartLost([end], t, signals, scopes, false, true, Overrun)
  {
    assert [end] + [t] == [end, t] && [end, t][1..] == [t];
    assert StripHeader([t], signals, scopes, false) == Header([], [], []);
  }

  lemma HeaderKept(header: seq<Line>, body: seq<Line>, signals: seq<string>)
    requires IsHeader(header, false, true) && FateOf(header, false, false) == Whole
    ensures Read(header + body, false).body == body && Kept(header + body, signals)
  {
    hide StripHeader, Read, Only, Decls, Requested;
    var h := StripHeader(header + body, signals, [], false);
    WholePart(header, body, signals, [], false, false, true, KeptLines(h.rest, Ids(h.decls)));
  }

  lemma HeaderLost(header: seq<Line>, t: Line, signals: seq<string>)
    requires IsHeader(header, false, true) && FateOf(header, false, false) != Whole
    requires t.head.Text? && t.body.Timestamp?
    ensures !Kept(header + [t], signals)
  {
    hide StripHeader, Read, Only, Decls, Requested;
    var h := StripHeader(header + [t], signals, [], false);
    LostPart(header, signals, [], false, false, true, t);
    assert forall ids :: KeptLines([t], ids) == [t] by { assert [t][1..] == []; }
    if h.rest == [] { assert h.out + [] == h.out; }
  }

  /** The tool keeps the meaning of every dump with this header, for any signals, exactly when
      the header's fate is whole. */
  lemma KeptExactly(header: seq<Line>)
    requires IsHeader(header, false, true)
    ensures (forall body, signals :: Kept(header + body, signals)) <==> FateOf(header, false, false) == Whole
  {
    hide Kept, FateOf, IsHeader;
    if FateOf(header, false, false) == Whole {
      forall body, signals ensures Kept(header + body, signals) { HeaderKept(header, body, signals); }
    } else {
      var t := Line(Text, false, Timestamp("0"));
      HeaderLost(header, t, []);
    }
  }

  // ---- the same for the lines of the timescale ----

  /** Whole sections, possibly with blank lines between them, none of them a $timescale. */
  predicate Sections(lines: seq<Line>, inside: bool)
  {
    if lines == [] then !inside
    else
      var line, rest := lines[0], lines[1..];
      if !inside && Declares(line) then Sections(rest, false)
      else Idle(line) && Sections(rest, InsideAfter(line, inside))
  }

  /** The text of a section, up to its $end. */
  predicate TextToEnd(lines: seq<Line>)
  {
    lines != [] && Idle(lines[0]) && if lines[0].ends then |lines| == 1 else TextToEnd(lines[1..])
  }

  predicate TimescaleSection(section: seq<Line>)
  {
    section != [] && Timescale(section[0]) && if section[0].ends then |section| == 1 else TextToEnd(section[1..])
  }

  /** The first line that declares nothing. */
  function FirstOther(lines: seq<Line>): Option<Line>
  {
    if lines == [] then None else if Declares(lines[0]) then FirstOther(lines[1..]) else Some(lines[0])
  }

  /** The timescale is closed where the tool sees its value: on the first line, if it sees it
      there, and otherwise on the second line.  A single line whose value the tool does not see is
      harmless only if the next line that declares nothing, which is then taken for the value,
      opens no section: a blank line, say, or a section on a single line. */
  predicate InTime(section: seq<Line>, after: seq<Line>)
    requires TimescaleSection(section)
  {
    if section[0].head.TimescaleInline? then |section| == 1
    else |section| == 2 || (|section| == 1 && FirstOther(after).Some? && !InsideAfter(FirstOther(after).value, false))
  }

  function HeaderOf(before: seq<Line>, section: seq<Line>, after: seq<Line>, end: Line): seq<Line>
  {
    before + (section + (after + [end]))
  }

  lemma {:induction false} SkipSections(before: seq<Line>, x: seq<Line>, inside: bool, timescale: bool)
    requires Sections(before, inside)
    ensures FateOf(before + x, inside, false) == FateOf(x, false, false)
    ensures IsHeader(x, false, timescale) ==> IsHeader(before + x, inside, timescale)
  {
    if before == [] {
      assert before + x == x;
    } else {
      First(before, x);
      SkipSections(before[1..], x, InsideAfter(before[0], inside) && (inside || !Declares(before[0])), timescale);
    }
  }

  lemma {:induction false} SkipText(text: seq<Line>, x: seq<Line>)
    requires TextToEnd(text) && IsHeader(x, false, false)
    ensures IsHeader(text + x, true, false)
  {
    First(text, x);
    if text[0].ends { assert text[1..] + x == x; } else { SkipText(text[1..], x); }
  }

  lemma {:induction false} ValuePending(after: seq<Line>, end: Line)
    requires Sections(after, false) && end.head.HeaderEnd?
    ensures FateOf(after + [end], false, true)
         == match FirstOther(after)
            case None => Overrun
            case Some(line) => if InsideAfter(line, false) then Cut else Whole
  {
    if after == [] {
      assert after + [end] == [end];
    } else {
      var rest := after[1..];
      First(after, [end]);
      if Declares(after[0]) {
        ValuePending(rest, end);
      } else if !InsideAfter(after[0], false) {
        SkipSections(rest, [end], false, false);
        NoTimescale(rest + [end], false);
      }
    }
  }

  lemma SectionFate(section: seq<Line>, after: seq<Line>, end: Line)
    requires TimescaleSection(section) && Sections(after, false) && end.head.HeaderEnd?
    ensures var lines := section + (after + [end]);
            && IsHeader(lines, false, true)
            && (FateOf(lines, false, false) == Whole <==> InTime(section, after))
            && (|section| > 1 ==> FateOf(lines, false, false) != Overrun)
  {
    hide Sections;
    var x := after + [end];
    First(section, x);
    SkipSections(after, [end], false, false);
    NoTimescale(x, false);
    if section[0].ends {
      assert section[1..] + x == x;
      ValuePending(after, end);
    } else {
      SkipText(section[1..], x);
      First(section[1..], x);
      var y := section[1..] + x;
      assert FateOf(y, true, true) == if section[1].ends then FateOf(y[1..], false, false) else Cut;
      if section[1].ends { assert section[1..][1..] + x == x; } else { assert TextToEnd(section[1..][1..]); }
    }
  }

  /** A header with a timescale is kept, whatever follows and is requested, exactly when the
      timescale is closed in time. */
  lemma KeptExactlyInTime(before: seq<Line>, section: seq<Line>, after: seq<Line>, end: Line)
    requires Sections(before, false) && TimescaleSection(section) && Sections(after, false) && end.head.HeaderEnd?
    ensures var header := HeaderOf(before, section, after, end);
            && IsHeader(header, false, true)
            && ((forall body, signals :: Kept(header + body, signals)) <==> InTime(section, after))
  {
    hide Kept, Sections, FateOf, IsHeader, TimescaleSection, InTime;
    SectionFate(section, after, end);
    SkipSections(before, section + (after + [end]), false, true);
    KeptExactly(HeaderOf(before, section, after, end));
  }

  /** A header without one is always kept. */
  lemma KeptWithoutTimescale(header: seq<Line>, body: seq<Line>, signals: seq<string>)
    requires IsHeader(header, false, false)
    ensures Kept(header + body, signals)
  {
    hide Kept, FateOf;
    NoTimescale(header, false);
    Weaker(header, false);
    HeaderKept(header, body, signals);
  }

  lemma {:induction false} Weaker(lines: seq<Line>, inside: bool)
    requires IsHeader(lines, inside, false)
    ensures IsHeader(lines, inside, true)
  {
    var line, rest := lines[0], lines[1..];
    if inside || Idle(line) { Weaker(rest, InsideAfter(line, inside)); }
    else if !line.head.HeaderEnd? { Weaker(rest, false); }
  }

  // ---- names ----

  /** The signals of the kept items are the requested ones, under their full names. */
  lemma {:induction false} OnlyRequested(items: seq<Item>, signals: seq<string>, scopes: seq<string>)
    ensures Decls(Only(items, signals, scopes), scopes) == Requested(Decls(items, scopes), signals)
  {
    hide FullName, Parent;
    if items != [] {
      match items[0]
      case Enter(scope) => OnlyRequested(items[1..], signals, scopes + [scope]);
      case Leave => OnlyRequested(items[1..], signals, Parent(scopes));
      case Signal(_, _) => OnlyRequested(items[1..], signals, scopes);
    }
  }

  /** A signal is declared before the scope the items start in is left; `depth` scopes are open
      inside it. */
  predicate DeclaresWithin(items: seq<Item>, depth: nat)
  {
    items != [] &&
    match items[0]
    case Enter(_) => DeclaresWithin(items[1..], depth + 1)
    case Leave => depth > 0 && DeclaresWithin(items[1..], depth - 1)
    case Signal(_, _) => true
  }

  /** Without its first scope a header declares the same names exactly if nothing is in it. */
  lemma {:induction false} FirstScopeMatters(items: seq<Item>, scope: string, scopes: seq<string>)
    ensures Decls(items, [scope] + scopes) == Decls(items, scopes) <==> !DeclaresWithin(items, |scopes|)
  {
    hide FullName;
    if items != [] {
      var rest := items[1..];
      match items[0]
      case Enter(s) =>
        assert [scope] + (scopes + [s]) == ([scope] + scopes) + [s];
        FirstScopeMatters(rest, scope, scopes + [s]);
      case Leave =>
        if scopes != [] {
          assert Parent([scope] + scopes) == [scope] + Parent(scopes);
          FirstScopeMatters(rest, scope, Parent(scopes));
        } else {
          assert Parent([scope]) == [];
          assert [scope] + scopes == [scope];
        }
      case Signal(id, name) =>
        LongerName(scope, scopes, name);
        assert Decls(items, [scope] + scopes)[0] != Decls(items, scopes)[0];
    }
  }

  /** The scope the items start in is never left; `depth` scopes are open inside it. */
  predicate StaysWithin(items: seq<Item>, depth: nat)
  {
    items == [] ||
    match items[0]
    case Enter(_) => StaysWithin(items[1..], depth + 1)
    case Leave => depth > 0 && StaysWithin(items[1..], depth - 1)
    case Signal(_, _) => StaysWithin(items[1..], depth)
  }

  /** The same identifiers, each name with the scope in front. */
  ghost predicate Prefixed(scope: string, inner: seq<Decl>, outer: seq<Decl>)
  {
    && |inner| == |outer|
    && forall i :: 0 <= i < |inner| ==> outer[i] == Decl(scope + "." + inner[i].name, inner[i].id)
  }

  /** Inside one more scope all names begin with it. */
  lemma {:induction false} AllPrefixed(items: seq<Item>, scope: string, scopes: seq<string>)
    requires StaysWithin(items, |scopes|)
    ensures Prefixed(scope, Decls(items, scopes), Decls(items, [scope] + scopes))
  {
    hide FullName;
    if items != [] {
      var rest := items[1..];
      match items[0]
      case Enter(s) =>
        assert [scope] + (scopes + [s]) == ([scope] + scopes) + [s];
        AllPrefixed(rest, scope, scopes + [s]);
      case Leave =>
        assert Parent([scope] + scopes) == [scope] + Parent(scopes);
        AllPrefixed(rest, scope, Parent(scopes));
      case Signal(id, name) =>
        Nested([scope], scopes, name);
        OneScope(scope, FullName(scopes, name));
        AllPrefixed(rest, scope, scopes);
    }
  }

  lemma LongerName(scope: string, scopes: seq<string>, name: string)
    ensures FullName([scope] + scopes, name) != FullName(scopes, name)
  {
    assert ([scope] + scopes)[1..] == scopes;
    assert |FullName([scope] + scopes, name)| > |FullName(scopes, name)|;
  }

  ghost predicate NamesKept(file: seq<Line>, signals: seq<string>)
  {
    Decls(Read(Strip(file, signals), false).items, [])
      == Requested(Decls(Read(file, false).items, []), signals)
  }

  lemma KeptNames(file: seq<Line>, signals: seq<string>)
    requires Kept(file, signals)
    ensures NamesKept(file, signals)
  {
    OnlyRequested(Read(file, false).items, signals, []);
  }

  /** Sections that declare nothing are neither written nor read. */
  lemma {:induction false} SkipSilent(lines: seq<Line>, y: seq<Line>, inside: bool, signals: seq<string>,
                                      scopes: seq<string>)
    requires Sections(lines, inside) && forall line :: line in lines ==> !Declares(line)
    ensures StripHeader(lines + y, signals, scopes, false) == StripHeader(y, signals, scopes, false)
    ensures Read(lines + y, inside) == Read(y, false)
  {
    if lines == [] {
      assert lines + y == y;
    } else {
      First(lines, y);
      SkipSilent(lines[1..], y, InsideAfter(lines[0], inside), signals, scopes);
    }
  }

  lemma {:induction false} TextIsSilent(text: seq<Line>)
    requires TextToEnd(text)
    ensures Sections(text, true) && forall line :: line in text ==> !Declares(line)
  {
    if !text[0].ends { TextIsSilent(text[1..]); }
  }

  /** What a timescale that is not closed in time leaves in the output: one or two lines. */
  function Remnant(section: seq<Line>): seq<Line>
    requires |section| > 1
  {
    if section[0].head.TimescaleInline? then [section[0]] else [section[0], section[1]]
  }

  lemma LateTimescale(section: seq<Line>, y: seq<Line>, signals: seq<string>, scopes: seq<string>)
    requires TimescaleSection(section) && |section| > 1 && !InTime(section, [])
    ensures var h := StripHeader(y, signals, scopes, false);
            StripHeader(section + y, signals, scopes, false) == h.(out := Remnant(section) + h.out)
    ensures Read(section + y, false) == Read(y, false)
  {
    hide StripHeader, Read;
    var text := section[1..];
    First(section, y);
    TextIsSilent(text);
    SkipSilent(text, y, true, signals, scopes);
    var h := StripHeader(y, signals, scopes, false);
    TimescaleLine(section + y, signals, scopes);
    if section[0].head.TimescaleStart? {
      First(text, y);
      assert TextToEnd(text[1..]);
      TextIsSilent(text[1..]);
      SkipSilent(text[1..], y, true, signals, scopes);
      ValueLine(text + y, signals, scopes);
      assert [section[0]] + ([section[1]] + h.out) == Remnant(section) + h.out;
    }
  }

  lemma TimescaleLine(lines: seq<Line>, signals: seq<string>, scopes: seq<string>)
    requires lines != [] && Timescale(lines[0]) && !lines[0].ends
    ensures StripHeader(lines, signals, scopes, false)
         == Writing(lines[0], StripHeader(lines[1..], signals, scopes, lines[0].head.TimescaleStart?))
    ensures Read(lines, false) == Read(lines[1..], true)
  {}

  lemma ValueLine(lines: seq<Line>, signals: seq<string>, scopes: seq<string>)
    requires lines != [] && Idle(lines[0])
    ensures StripHeader(lines, signals, scopes, true)
         == Writing(lines[0], StripHeader(lines[1..], signals, scopes, false))
  {}

  /** A remnant swallows the first declaration written after it. */
  lemma RemnantReads(section: seq<Line>, out: seq<Line>)
    requires TimescaleSection(section) && |section| > 1 && !InTime(section, [])
    requires out != [] && Declares(out[0])
    ensures Read(Remnant(section) + out, false) == Read(out[1..], false)
    ensures Read(out, false).items[1..] == Read(out[1..], false).items
  {
    var cut := Remnant(section);
    First(cut, out);
    if section[0].head.TimescaleStart? {
      First(cut[1..], out);
      assert cut[1..][1..] + out == out;
      assert !Ends(section[1]) by { assert TextToEnd(section[1..]); }
      assert Read(cut[1..] + out, true) == Read(out, true);
    } else {
      assert cut[1..] + out == out;
    }
  }

  /** If the timescale precedes all declarations, is not a single line without a visible value,
      and a requested signal lies in the first scope, then the names are kept exactly when the
      timescale is closed in time; otherwise they lose that scope. */
  lemma NamesKeptExactly(before: seq<Line>, section: seq<Line>, after: seq<Line>, end: Line,
                         body: seq<Line>, signals: seq<string>)
    requires Sections(before, false) && TimescaleSection(section) && Sections(after, false) && end.head.HeaderEnd?
    requires (forall line :: line in before ==> !Declares(line)) && (section[0].head.TimescaleInline? || |section| > 1)
    requires var items := Only(Read(HeaderOf(before, section, after, end) + body, false).items, signals, []);
             items != [] && items[0].Enter? && DeclaresWithin(items[1..], 0)
    ensures NamesKept(HeaderOf(before, section, after, end) + body, signals) <==> InTime(section, after)
    ensures var file := HeaderOf(before, section, after, end) + body;
            var items := Only(Read(file, false).items, signals, []);
            !InTime(section, after) && StaysWithin(items[1..], 0) ==>
              Prefixed(items[0].scope, Decls(Read(Strip(file, signals), false).items, []),
                       Requested(Decls(Read(file, false).items, []), signals))
  {
    hide Sections, FateOf, IsHeader, Kept, NamesKept, Read, Only, DeclaresWithin, StaysWithin, Prefixed, Strip;
    var header := HeaderOf(before, section, after, end);
    if InTime(section, after) {
      SectionFate(section, after, end);
      SkipSections(before, section + (after + [end]), false, true);
      HeaderKept(header, body, signals);
      KeptNames(header + body, signals);
    } else {
      LateNames(before, section, after, end, body, signals);
    }
  }

  lemma LateNames(before: seq<Line>, section: seq<Line>, after: seq<Line>, end: Line,
                  body: seq<Line>, signals: seq<string>)
    requires Sections(before, false) && TimescaleSection(section) && Sections(after, false) && end.head.HeaderEnd?
    requires (forall line :: line in before ==> !Declares(line)) && |section| > 1 && !InTime(section, after)
    requires var items := Only(Read(HeaderOf(before, section, after, end) + body, false).items, signals, []);
             items != [] && items[0].Enter? && DeclaresWithin(items[1..], 0)
    ensures var file := HeaderOf(before, section, after, end) + body;
            var items := Only(Read(file, false).items, signals, []);
            && !NamesKept(file, signals)
            && (StaysWithin(items[1..], 0) ==>
                  Prefixed(items[0].scope, Decls(Read(Strip(file, signals), false).items, []),
                           Requested(Decls(Read(file, false).items, []), signals)))
  {
    hide Sections, TimescaleSection, IsHeader, Read, DeclaresWithin, StaysWithin, Prefixed, StripHeader, Only, FateOf;
    var file, x := HeaderOf(before, section, after, end) + body, after + [end];
    var y := x + body;
    assert file == before + (section + y);
    SkipSilent(before, section + y, false, signals, []);
    assert !InTime(section, []);
    LateTimescale(section, y, signals, []);
    SkipSections(after, [end], false, false);
    EndIsHeader(end);
    NoTimescale(x, false);
    var h := StripHeader(y, signals, [], false);
    var kept := KeptLines(h.rest, Ids(h.decls));
    WholePart(x, body, signals, [], false, false, false, kept);
    FirstWritten(x, body, signals, [], false);
    var out := h.out + kept;
    First(h.out, kept);
    assert Strip(file, signals) == Remnant(section) + out by {
      assert (Remnant(section) + h.out) + kept == Remnant(section) + out;
    }
    var items := Only(Read(y, false).items, signals, []);
    if !Declares(out[0]) { EndReads(out); assert false; }
    RemnantReads(section, out);
    LostFirst(items, Read(file, false).items, signals);
  }

  lemma EndIsHeader(end: Line)
    requires end.head.HeaderEnd?
    ensures IsHeader([end], false, false)
  {}

  lemma EndReads(out: seq<Line>)
    requires out != [] && out[0].head.HeaderEnd?
    ensures Read(out, false).items == []
  {}

  lemma LostFirst(items: seq<Item>, all: seq<Item>, signals: seq<string>)
    requires items == Only(all, signals, []) && items != [] && items[0].Enter? && DeclaresWithin(items[1..], 0)
    ensures Decls(items[1..], []) != Requested(Decls(all, []), signals)
    ensures StaysWithin(items[1..], 0) ==>
              Prefixed(items[0].scope, Decls(items[1..], []), Requested(Decls(all, []), signals))
  {
    OnlyRequested(all, signals, []);
    if StaysWithin(items[1..], 0) { AllPrefixed(items[1..], items[0].scope, []); }
    FirstScopeMatters(items[1..], items[0].scope, []);
    assert [items[0].scope] + [] == [] + [items[0].scope];
  }

  /** The three-line form: the first scope is lost. */
  lemma ThreeLineTimescale()
    ensures var file := [Line(TimescaleStart, false, OtherBody(Some("$timescale"))),
                         Line(Text, false, OtherBody(Some("1ps"))),
                         Line(Text, true, OtherBody(Some("$end"))), Line(ScopeDecl("TOP"), true, OtherBody(None)),
                         Line(VarDecl("!", "clk"), true, OtherBody(None)), Line(HeaderEnd, true, OtherBody(None))];
            && Decls(Read(file, false).items, []) == [Decl("TOP.clk", "!")]
            && Decls(Read(Strip(file, ["TOP.clk"]), false).items, []) == [Decl("clk", "!")]
  {
    var ts, val, close := Line(TimescaleStart, false, OtherBody(Some("$timescale"))),
                          Line(Text, false, OtherBody(Some("1ps"))),
                          Line(Text, true, OtherBody(Some("$end")));
    var sc, v, e := Line(ScopeDecl("TOP"), true, OtherBody(None)), Line(VarDecl("!", "clk"), true, OtherBody(None)),
                    Line(HeaderEnd, true, OtherBody(None));
    var section, y := [ts, val, close], [sc, v, e];
    assert [ts, val, close, sc, v, e] == section + y;
    TopClock(sc, v, e);
    assert section[1..] == [val, close] && [val, close][1..] == [close];
    assert TextToEnd([close]) && TextToEnd([val, close]) && TimescaleSection(section);
    LateTimescale(section, y, ["TOP.clk"], []);
    RemnantReads(section, y);
    assert Remnant(section) + y + [] == Remnant(section) + y;
  }

  /** A single line with one digit and a space before the unit: the end of the header is taken for the value,
      and the timestamps and values after it are dropped as lines of the header. */
  lemma SpacedTimescale()
    ensures var t := Line(Text, false, Timestamp("0"));
            var file := [Line(TimescaleStart, true, OtherBody(None)), Line(ScopeDecl("TOP"), true, OtherBody(None)),
                         Line(HeaderEnd, true, OtherBody(None)), t];
            Read(file, false).body == [t] && Read(Strip(file, []), false).body == []
  {
    var ts, sc, e, t := Line(TimescaleStart, true, OtherBody(None)), Line(ScopeDecl("TOP"), true, OtherBody(None)),
                        Line(HeaderEnd, true, OtherBody(None)), Line(Text, false, Timestamp("0"));
    var header := [ts] + ([sc] + [e]);
    assert [sc][1..] == [] && [ts][1..] == [];
    SectionFate([ts], [sc], e);
    First([ts], [sc] + [e]);
    ValuePending([sc], e);
    LostPart(header, [], [], false, false, true, t);
    var h := StripHeader(header + [t], [], [], false);
    assert header + [t] == [ts, sc, e, t] && h.out + [] == h.out;
  }

  lemma TopClock(sc: Line, v: Line, e: Line)
    requires sc.head == ScopeDecl("TOP") && v.head == VarDecl("!", "clk") && e.head == HeaderEnd
    ensures StripHeader([sc, v, e], ["TOP.clk"], [], false) == Header([sc, v, e], [Decl("TOP.clk", "!")], [])
    ensures Read([sc, v, e], false) == Dump([Enter("TOP"), Signal("!", "clk")], [])
    ensures Read([v, e], false) == Dump([Signal("!", "clk")], [])
    ensures Decls([Enter("TOP"), Signal("!", "clk")], []) == [Decl("TOP.clk", "!")]
    ensures Decls([Signal("!", "clk")], []) == [Decl("clk", "!")]
  {
    assert [sc, v, e][1..] == [v, e] && [v, e][1..] == [e] && [e][1..] == [];
    assert FullName(["TOP"], "clk") == "TOP.clk" by {
      assert ["TOP"][1..] == [] && "TOP" + "." + "clk" == "TOP.clk";
    }
    assert [] + ["TOP"] == ["TOP"];
    assert StripHeader([e], ["TOP.clk"], ["TOP"], false) == Header([e], [], []);
    assert StripHeader([v, e], ["TOP.clk"], ["TOP"], false) == Header([v, e], [Decl("TOP.clk", "!")], []);
    assert Read([e], false) == Dump([], []) && Read([v, e], false) == Dump([Signal("!", "clk")], []);
    assert [Enter("TOP"), Signal("!", "clk")][1..] == [Signal("!", "clk")] && [Signal("!", "clk")][1..] == [];
  }

  lemma {:induction false} RequestedIn(decls: seq<Decl>, signals: seq<string>, d: Decl)
    ensures d in Requested(decls, signals) <==> d in decls && d.name in signals
  {
    if decls != [] {
      RequestedIn(decls[1..], signals, d);
      assert d in decls <==> d == decls[0] || d in decls[1..];
    }
  }

  // ---- values ----

  ghost predicate ChangesKept(lines: seq<Line>, id: string, ids: map<string, string>)
  {
    forall line :: line in lines && Changes(line, id) ==> Keeps(line, ids)
  }

  /** The values of an identifier survive exactly when all its change lines do. */
  lemma {:induction false} KeptValues(lines: seq<Line>, id: string, ids: map<string, string>, now: Option<string>)
    ensures |Values(KeptLines(lines, ids), id, now)| <= |Values(lines, id, now)|
    ensures Values(KeptLines(lines, ids), id, now) == Values(lines, id, now) <==> ChangesKept(lines, id, ids)
  {
    hide NewValue;
    if lines != [] {
      var line, rest := lines[0], lines[1..];
      KeptValues(rest, id, ids, TimeAfter(line, now));
      assert forall l :: l in lines <==> l == line || l in rest;
      if Keeps(line, ids) {
        assert KeptLines(lines, ids)[1..] == KeptLines(rest, ids);
        if Changes(line, id) {
          SameTail((now, NewValue(line)), Values(KeptLines(rest, ids), id, now), Values(rest, id, now));
        }
      }
    }
  }

  /** A change whose digits are x, 0 and 1 only. */
  predicate Plain(b: Body)
  {
    match b
    case Scalar(c, id) => (c == 'x' || c == '0' || c == '1') && id != ""
    case Vector(base, digits, id) =>
      base == 'b' && digits != "" && id != "" &&
      forall i :: 0 <= i < |digits| ==> digits[i] == 'x' || digits[i] == '0' || digits[i] == '1'
    case _ => false
  }

  /** The value and the identifier of a scalar change together are the identifier of a requested
      signal. */
  ghost predicate Mistaken(b: Body, decls: seq<Decl>, signals: seq<string>)
  {
    b.Scalar? && exists d :: d in decls && d.name in signals && d.id == [b.value] + b.id
  }

  /** A change of any identifier is kept exactly when it is plain and a requested signal has the
      identifier, or when it is not plain and mistaken for one. */
  lemma KeepsWhen(line: Line, id: string, decls: seq<Decl>, signals: seq<string>)
    requires Changes(line, id)
    ensures Keeps(line, Ids(Requested(decls, signals))) <==>
            if Plain(line.body) then exists d :: d in decls && d.name in signals && d.id == id
            else Mistaken(line.body, decls, signals)
  {
    forall e ensures e in Requested(decls, signals) <==> e in decls && e.name in signals {
      RequestedIn(decls, signals, e);
    }
  }

  /** The kept lines are the lines to be kept, in their order: nothing is added or moved, and
      nothing else stays. */
  lemma {:induction false} KeptLinesAre(lines: seq<Line>, more: seq<Line>, ids: map<string, string>)
    ensures KeptLines(lines + more, ids) == KeptLines(lines, ids) + KeptLines(more, ids)
    ensures forall line :: line in KeptLines(lines, ids) <==> line in lines && Keeps(line, ids)
  {
    if lines == [] {
      assert lines + more == more;
    } else {
      assert (lines + more)[1..] == lines[1..] + more;
      assert forall line :: line in lines <==> line == lines[0] || line in lines[1..];
      KeptLinesAre(lines[1..], more, ids);
    }
  }

  /** Of an identifier that no requested signal has the stripped dump shows no plain value. */
  lemma OthersDropped(header: seq<Line>, body: seq<Line>, signals: seq<string>, id: string)
    requires IsHeader(header, false, true) && FateOf(header, false, false) == Whole
    requires forall d :: d in Decls(Read(header + body, false).items, []) && d.name in signals ==> d.id != id
    ensures forall line :: line in Read(Strip(header + body, signals), false).body && Changes(line, id) ==>
              line in body && !Plain(line.body)
              && Mistaken(line.body, Decls(Read(header + body, false).items, []), signals)
  {
    hide IsHeader, FateOf, Read, Strip, Decls, Only, Requested, Plain, Mistaken, Changes, Keeps, Ids, KeptLines;
    var decls := Decls(Read(header + body, false).items, []);
    HeaderKept(header, body, signals);
    KeptLinesAre(body, [], Ids(Requested(decls, signals)));
    forall line | Keeps(line, Ids(Requested(decls, signals))) && Changes(line, id)
      ensures !Plain(line.body) && Mistaken(line.body, decls, signals)
    {
      KeepsWhen(line, id, decls, signals);
    }
  }

  /** For a requested, declared signal of a dump whose header is kept the stripped dump shows the
      same timestamped values exactly when every change of it is plain, or can be mistaken for
      the identifier of a requested signal. */
  lemma ValuesKeptWhen(header: seq<Line>, body: seq<Line>, signals: seq<string>, d: Decl)
    requires IsHeader(header, false, true) && FateOf(header, false, false) == Whole
    requires d in Decls(Read(header + body, false).items, []) && d.name in signals
    ensures var decls, s := Decls(Read(header + body, false).items, []), Read(Strip(header + body, signals), false);
            && d in Decls(s.items, [])
            && (Values(s.body, d.id, None) == Values(body, d.id, None) <==>
                forall line :: line in body && Changes(line, d.id) ==>
                  Plain(line.body) || Mistaken(line.body, decls, signals))
  {
    hide IsHeader, FateOf, Read, Strip, Decls, Only, Requested, Plain, Mistaken, Changes, Keeps, Ids, Values, KeptLines;
    var decls := Decls(Read(header + body, false).items, []);
    HeaderKept(header, body, signals);
    KeptNames(header + body, signals);
    RequestedIn(decls, signals, d);
    KeptValues(body, d.id, Ids(Requested(decls, signals)), None);
    forall line | Changes(line, d.id)
      ensures Keeps(line, Ids(Requested(decls, signals))) <==> Plain(line.body) || Mistaken(line.body, decls, signals)
    {
      KeepsWhen(line, d.id, decls, signals);
    }
  }

  /** In particular when the signal only takes such values. */
  lemma PlainValuesKept(header: seq<Line>, body: seq<Line>, signals: seq<string>, d: Decl)
    requires IsHeader(header, false, true) && FateOf(header, false, false) == Whole
    requires d in Decls(Read(header + body, false).items, []) && d.name in signals
    requires forall line :: line in body && Changes(line, d.id) ==> Plain(line.body)
    ensures Values(Read(Strip(header + body, signals), false).body, d.id, None) == Values(body, d.id, None)
  {
    hide *;
    ValuesKeptWhen(header, body, signals, d);
  }

  /** A change to z is lost: the pattern takes the z for part of the identifier. */
  lemma HighImpedanceLost()
    ensures var header := [Line(VarDecl("!", "clk"), true, OtherBody(None)), Line(HeaderEnd, true, OtherBody(None))];
            var body := [Line(Text, false, Timestamp("0")), Line(Text, false, Scalar('z', "!"))];
            && IsHeader(header, false, true) && FateOf(header, false, false) == Whole
            && Values(body, "!", None) == [(Some("0"), Bit('z'))]
            && Values(Read(Strip(header + body, ["clk"]), false).body, "!", None) == []
  {
    var v, e := Line(VarDecl("!", "clk"), true, OtherBody(None)), Line(HeaderEnd, true, OtherBody(None));
    var t, z := Line(Text, false, Timestamp("0")), Line(Text, false, Scalar('z', "!"));
    ClockHeader(v, e, [t, z]);
    HighImpedanceValues(t, z);
    HeaderKept([v, e], [t, z], ["clk"]);
  }

  lemma ClockHeader(v: Line, e: Line, body: seq<Line>)
    requires v.head == VarDecl("!", "clk") && e.head == HeaderEnd
    ensures IsHeader([v, e], false, true) && FateOf([v, e], false, false) == Whole
    ensures Decls(Read([v, e] + body, false).items, []) == [Decl("clk", "!")]
    ensures Ids(Requested([Decl("clk", "!")], ["clk"])) == map["!" := "clk"]
  {
    assert [v, e][1..] == [e] && [e][1..] == [];
    First([v, e], body);
    First([e], body);
    assert Read([v, e] + body, false).items == [Signal("!", "clk")];
    assert [Signal("!", "clk")][1..] == [];
    assert [Decl("clk", "!")][1..] == [];
  }

  lemma HighImpedanceValues(t: Line, z: Line)
    requires t.body == Timestamp("0") && z.body == Scalar('z', "!")
    ensures Values([t, z], "!", None) == [(Some("0"), Bit('z'))]
    ensures Values(KeptLines([t, z], map["!" := "clk"]), "!", None) == []
  {
    assert [t, z][1..] == [z] && [z][1..] == [] && [t][1..] == [];
    assert Values([z], "!", Some("0")) == [(Some("0"), Bit('z'))];
    assert ['z'] + "!" == "z!" != "!";
    assert KeptLines([z], map["!" := "clk"]) == [];
    assert KeptLines([t, z], map["!" := "clk"]) == [t];
  }
}
