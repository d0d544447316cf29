/** The currency lists of the configuration file (src/brain_sets/mod.rs).
    A reader scans the file line by line; a section is opened and closed by
    marker lines, and inside it every non-comment line with the right
    number of whitespace-separated fields becomes one entry. The file is
    given here as its sequence of lines. */
module BrainSets {
  import opened Wrappers
  import opened Text
  import opened Decimal

  datatype BaseCurrency = BaseCurrency(symbol: string, percentage: real)

  datatype AltCurrency = AltCurrency(symbol: string)

  /** Number of fields of an alt-currency line. */
  const COUNT_FIELD_PS: nat := 1
  /** Number of fields of a base-currency line. */
  const COUNT_FIELD_CI: nat := 2

  const BASE_OPEN: string := "[> BaseCurrency >]"
  const BASE_CLOSE: string := "[< BaseCurrency <]"
  const ALT_OPEN: string := "[> AltCurrency >]"
  const ALT_CLOSE: string := "[< AltCurrency <]"

  const INVALID_PERCENTAGE: string := "Invalid percentage format"

  /** The two marker lines of a section and the field count of its entries. */
  datatype Section = Section(open: string, close: string, fields: nat)

  const BaseSection := Section(BASE_OPEN, BASE_CLOSE, COUNT_FIELD_CI)
  const AltSection := Section(ALT_OPEN, ALT_CLOSE, COUNT_FIELD_PS)

  /** What the reader makes of one line, in the order it tests: the open
      marker, the close marker, a comment, otherwise the line's fields. */
  datatype LineKind = OpenMarker | CloseMarker | Comment | Fields(parts: seq<string>)

  predicate IsComment(line: string) {
    IsPrefix(";", TrimStart(line))
  }

  function Classify(line: string, sec: Section): LineKind {
    if Trim(line) == sec.open then OpenMarker
    else if Trim(line) == sec.close then CloseMarker
    else if IsComment(line) then Comment
    else Fields(SplitWhitespace(line))
  }

  /** The kinds of `lines`, one per line. */
  function Kinds(lines: seq<string>, sec: Section): (ks: seq<LineKind>)
    ensures |ks| == |lines|
  {
    if lines == [] then []
    else Kinds(lines[..|lines| - 1], sec) + [Classify(lines[|lines| - 1], sec)]
  }

  /** Whether the section is open after lines of kinds `ks`, when it was
      `inside` before them. */
  function InsideAfter(ks: seq<LineKind>, inside: bool): bool {
    if ks == [] then inside
    else if ks[|ks| - 1] == OpenMarker then true
    else if ks[|ks| - 1] == CloseMarker then false
    else InsideAfter(ks[..|ks| - 1], inside)
  }

  /** Whether a line of kind `k`, read while the section is `inside`, yields
      an entry: a non-marker, non-comment line inside the section whose
      field count is `fields`. */
  predicate Contributes(k: LineKind, fields: nat, inside: bool) {
    inside && k.Fields? && |k.parts| == fields
  }

  /** The field lists of the entry lines among lines of kinds `ks`, in file
      order; each has `fields` fields. */
  function Accepted(ks: seq<LineKind>, fields: nat, inside: bool): (entries: seq<seq<string>>)
    ensures forall k :: 0 <= k < |entries| ==> |entries[k]| == fields
  {
    if ks == [] then []
    else
      var before := ks[..|ks| - 1];
      var prev := Accepted(before, fields, inside);
      var last := ks[|ks| - 1];
      if Contributes(last, fields, InsideAfter(before, inside)) then prev + [last.parts] else prev
  }

  /** Builds the base currencies from their field lists; the first
      percentage that is not a number is the panic of the source. */
  function ParseBases(entries: seq<seq<string>>): (r: Result<seq<BaseCurrency>, string>)
    requires forall k :: 0 <= k < |entries| ==> |entries[k]| == COUNT_FIELD_CI
    ensures r.Err? ==> r == Err(INVALID_PERCENTAGE)
    ensures r.Ok? <==> forall k :: 0 <= k < |entries| ==> ParsePercentage(entries[k][1]).Some?
    ensures r.Ok? ==> |r.value| == |entries|
                      && forall k :: 0 <= k < |entries| ==>
                           r.value[k] == BaseCurrency(entries[k][0], ParsePercentage(entries[k][1]).value)
  {
    if entries == [] then Ok([])
    else
      var last := entries[|entries| - 1];
      assert forall k :: 0 <= k < |entries| - 1 ==> entries[..|entries| - 1][k] == entries[k];
      match ParseBases(entries[..|entries| - 1])
      case Err(e) => Err(e)
      case Ok(done) =>
        match ParsePercentage(last[1])
        case None => Err(INVALID_PERCENTAGE)
        case Some(p) => Ok(done + [BaseCurrency(last[0], p)])
  }

  /** A percentage field: the number before any trailing '%' signs. */
  function ParsePercentage(field: string): Option<real> {
    ParseDecimal(TrimEndMatches(field, '%'))
  }

  /** What `read_setting_base_currency` yields for a file of `lines`. */
  function BaseCurrencies(lines: seq<string>): Result<seq<BaseCurrency>, string> {
    ParseBases(Accepted(Kinds(lines, BaseSection), COUNT_FIELD_CI, false))
  }

  /** What `read_setting_alt_currency` yields for a file of `lines`. */
  function AltCurrencies(lines: seq<string>): seq<AltCurrency> {
    ToAlts(Accepted(Kinds(lines, AltSection), COUNT_FIELD_PS, false))
  }

  /** One alt currency per single-field entry, named by the field. */
  function ToAlts(entries: seq<seq<string>>): (r: seq<AltCurrency>)
    requires forall k :: 0 <= k < |entries| ==> |entries[k]| == COUNT_FIELD_PS
    ensures |r| == |entries| && forall k :: 0 <= k < |r| ==> r[k] == AltCurrency(entries[k][0])
  {
    if entries == [] then []
    else ToAlts(entries[..|entries| - 1]) + [AltCurrency(entries[|entries| - 1][0])]
  }

  lemma KindsStep(lines: seq<string>, i: nat, sec: Section)
    requires i < |lines|
    ensures Kinds(lines[..i + 1], sec) == Kinds(lines[..i], sec) + [Classify(lines[i], sec)]
  {
    assert lines[..i + 1][..i] == lines[..i];
  }

  /** One more line: the section state and the entries after it. */
  lemma AcceptedSnoc(ks: seq<LineKind>, k: LineKind, fields: nat, inside: bool)
    ensures InsideAfter(ks + [k], inside)
            == (if k == OpenMarker then true else if k == CloseMarker then false else InsideAfter(ks, inside))
    ensures Accepted(ks + [k], fields, inside)
            == Accepted(ks, fields, inside)
               + (if Contributes(k, fields, InsideAfter(ks, inside)) then [k.parts] else [])
  {
    assert (ks + [k])[..|ks|] == ks;
  }

  /** One more base entry: its percentage is parsed, or the file fails. */
  lemma ParseBasesSnoc(entries: seq<seq<string>>, e: seq<string>)
    requires forall k :: 0 <= k < |entries| ==> |entries[k]| == COUNT_FIELD_CI
    requires |e| == COUNT_FIELD_CI
    ensures ParseBases(entries).Ok? && ParsePercentage(e[1]).Some? ==>
              ParseBases(entries + [e])
              == Ok(ParseBases(entries).value + [BaseCurrency(e[0], ParsePercentage(e[1]).value)])
    ensures ParsePercentage(e[1]).None? ==> ParseBases(entries + [e]).Err?
  {
    assert (entries + [e])[..|entries|] == entries;
  }

  /** `read_setting_base_currency`: the entries of the base section, or the
      percentage-format panic. */
  method ReadSettingBaseCurrency(lines: seq<string>) returns (r: Result<seq<BaseCurrency>, string>)
    ensures r == BaseCurrencies(lines)
  {
    var data: seq<BaseCurrency> := [];
    var insideSection := false;
    for i := 0 to |lines|
      invariant insideSection == InsideAfter(Kinds(lines[..i], BaseSection), false)
      invariant ParseBases(Accepted(Kinds(lines[..i], BaseSection), COUNT_FIELD_CI, false)) == Ok(data)
    {
      var line := lines[i];
      ghost var ks := Kinds(lines[..i], BaseSection);
      ghost var k := Classify(line, BaseSection);
      KindsStep(lines, i, BaseSection);
      AcceptedSnoc(ks, k, COUNT_FIELD_CI, false);
      if Trim(line) == BASE_OPEN {
        insideSection := true;
      } else if Trim(line) == BASE_CLOSE {
        insideSection := false;
      } else if insideSection {
        if !IsPrefix(";", TrimStart(line)) {
          var parts := SplitWhitespace(line);
          if |parts| == COUNT_FIELD_CI {
            var symbol := parts[0];
            var percentage := ParsePercentage(parts[1]);
            ParseBasesSnoc(Accepted(ks, COUNT_FIELD_CI, false), parts);
            if percentage.None? {
              BaseErrorPersists(lines, i + 1);
              return Err(INVALID_PERCENTAGE);
            }
            data := data + [BaseCurrency(symbol, percentage.value)];
          }
        }
      }
    }
    assert lines[..|lines|] == lines;
    r := Ok(data);
  }

  /** `read_setting_alt_currency`: the entries of the alt section. */
  method ReadSettingAltCurrency(lines: seq<string>) returns (r: seq<AltCurrency>)
    ensures r == AltCurrencies(lines)
  {
    var data: seq<AltCurrency> := [];
    var insideSection := false;
    for i := 0 to |lines|
      invariant insideSection == InsideAfter(Kinds(lines[..i], AltSection), false)
      invariant data == AltCurrencies(lines[..i])
    {
      var line := lines[i];
      ghost var ks := Kinds(lines[..i], AltSection);
      ghost var k := Classify(line, AltSection);
      KindsStep(lines, i, AltSection);
      AcceptedSnoc(ks, k, COUNT_FIELD_PS, false);
      if Trim(line) == ALT_OPEN {
        insideSection := true;
      } else if Trim(line) == ALT_CLOSE {
        insideSection := false;
      } else if insideSection {
        if !IsPrefix(";", TrimStart(line)) {
          var parts := SplitWhitespace(line);
          if |parts| == COUNT_FIELD_PS {
            var symbol := parts[0];
            ghost var entries := Accepted(ks, COUNT_FIELD_PS, false);
            assert (entries + [parts])[..|entries|] == entries;
            data := data + [AltCurrency(symbol)];
          }
        }
      }
    }
    assert lines[..|lines|] == lines;
    r := data;
  }

  /** Reading `a` then `b` is reading `b` in the state `a` leaves behind. */
  lemma {:induction false} InsideAfterAppend(a: seq<LineKind>, b: seq<LineKind>, inside: bool)
    ensures InsideAfter(a + b, inside) == InsideAfter(b, InsideAfter(a, inside))
    decreases |b|
  {
    if b != [] {
      assert (a + b)[..|a + b| - 1] == a + b[..|b| - 1];
      InsideAfterAppend(a, b[..|b| - 1], inside);
    } else {
      assert a + b == a;
    }
  }

  /** The entries of `a + b` are those of `a` followed by those of `b` read
      in the state `a` leaves behind. */
  lemma {:induction false} AcceptedAppend(a: seq<LineKind>, b: seq<LineKind>, fields: nat, inside: bool)
    ensures Accepted(a + b, fields, inside)
            == Accepted(a, fields, inside) + Accepted(b, fields, InsideAfter(a, inside))
    decreases |b|
  {
    if b != [] {
      assert (a + b)[..|a + b| - 1] == a + b[..|b| - 1];
      AcceptedAppend(a, b[..|b| - 1], fields, inside);
      InsideAfterAppend(a, b[..|b| - 1], inside);
    } else {
      assert a + b == a;
    }
  }

  lemma {:induction false} KindsAppend(a: seq<string>, b: seq<string>, sec: Section)
    ensures Kinds(a + b, sec) == Kinds(a, sec) + Kinds(b, sec)
    decreases |b|
  {
    if b != [] {
      assert (a + b)[..|a + b| - 1] == a + b[..|b| - 1];
      KindsAppend(a, b[..|b| - 1], sec);
    } else {
      assert a + b == a;
    }
  }

  /** Once a percentage fails to parse, the whole file fails. */
  lemma {:induction false} ParseBasesErrorPersists(a: seq<seq<string>>, b: seq<seq<string>>)
    requires forall k :: 0 <= k < |a| ==> |a[k]| == COUNT_FIELD_CI
    requires forall k :: 0 <= k < |b| ==> |b[k]| == COUNT_FIELD_CI
    requires ParseBases(a).Err?
    ensures ParseBases(a + b) == ParseBases(a)
    decreases |b|
  {
    if b == [] {
      assert a + b == a;
    } else {
      assert (a + b)[..|a + b| - 1] == a + b[..|b| - 1];
      ParseBasesErrorPersists(a, b[..|b| - 1]);
    }
  }

  /** A percentage that fails to parse in the first `i` lines makes the
      whole file fail. */
  lemma BaseErrorPersists(lines: seq<string>, i: nat)
    requires i <= |lines|
    requires ParseBases(Accepted(Kinds(lines[..i], BaseSection), COUNT_FIELD_CI, false)).Err?
    ensures BaseCurrencies(lines) == Err(INVALID_PERCENTAGE)
  {
    var rest := lines[i..];
    assert lines == lines[..i] + rest;
    KindsAppend(lines[..i], rest, BaseSection);
    var a, b := Kinds(lines[..i], BaseSection), Kinds(rest, BaseSection);
    AcceptedAppend(a, b, COUNT_FIELD_CI, false);
    ParseBasesErrorPersists(Accepted(a, COUNT_FIELD_CI, false),
                            Accepted(b, COUNT_FIELD_CI, InsideAfter(a, false)));
  }

  /** Line `k` opens the section and no later line closes it. */
  predicate OpenedAt(ks: seq<LineKind>, k: int) {
    0 <= k < |ks| && ks[k] == OpenMarker
    && forall j :: k < j < |ks| ==> ks[j] != CloseMarker
  }

  /** The section is open after a file exactly when some line opened it and
      no later line closed it. */
  lemma {:induction false} InsideAfterIff(ks: seq<LineKind>)
    ensures InsideAfter(ks, false) <==> exists k :: OpenedAt(ks, k)
  {
    if ks != [] {
      var n := |ks| - 1;
      var before := ks[..n];
      InsideAfterIff(before);
      if ks[n] == OpenMarker {
        assert OpenedAt(ks, n);
      } else if ks[n] == CloseMarker {
        forall k | OpenedAt(ks, k)
          ensures false
        {
        }
      } else {
        forall k | 0 <= k < n
          ensures OpenedAt(ks, k) <==> OpenedAt(before, k)
        {
          if OpenedAt(before, k) {
            forall j | k < j < |ks|
              ensures ks[j] != CloseMarker
            {
              if j < n {
                assert before[j] == ks[j];
              }
            }
          }
          if OpenedAt(ks, k) {
            forall j | k < j < n
              ensures before[j] != CloseMarker
            {
              assert before[j] == ks[j];
            }
          }
        }
        assert !OpenedAt(ks, n);
      }
    }
  }

  /** Lines among which no open marker stands contribute nothing when the
      section starts closed, and leave it closed: lines before the first
      open marker, and lines after a close marker, are ignored. */
  lemma {:induction false} ClosedStretchIgnored(ks: seq<LineKind>, fields: nat)
    requires forall k :: 0 <= k < |ks| ==> ks[k] != OpenMarker
    ensures Accepted(ks, fields, false) == []
    ensures !InsideAfter(ks, false)
  {
    if ks != [] {
      ClosedStretchIgnored(ks[..|ks| - 1], fields);
    }
  }

  /** A line whose left-trimmed text starts with ';' never yields an entry,
      wherever it stands. */
  lemma CommentAddsNothing(lines: seq<string>, line: string, sec: Section, inside: bool)
    requires IsComment(line)
    ensures Accepted(Kinds(lines + [line], sec), sec.fields, inside)
            == Accepted(Kinds(lines, sec), sec.fields, inside)
  {
    assert (lines + [line])[..|lines|] == lines;
  }

  /** The entries of an open stretch without marker lines: its field lines
      with the right field count, in order. */
  function StretchEntries(body: seq<LineKind>, fields: nat): seq<seq<string>> {
    if body == [] then []
    else
      (if body[0].Fields? && |body[0].parts| == fields then [body[0].parts] else [])
      + StretchEntries(body[1..], fields)
  }

  lemma {:induction false} StretchEntriesAppend(body: seq<LineKind>, k: LineKind, fields: nat)
    ensures StretchEntries(body + [k], fields)
            == StretchEntries(body, fields) + (if k.Fields? && |k.parts| == fields then [k.parts] else [])
  {
    if body != [] {
      assert (body + [k])[1..] == body[1..] + [k];
      StretchEntriesAppend(body[1..], k, fields);
    }
  }

  /** Inside an open section, every non-comment line with the right field
      count contributes, in file order, and the section stays open. */
  lemma {:induction false} OpenStretch(body: seq<LineKind>, fields: nat)
    requires forall k :: 0 <= k < |body| ==> body[k] != OpenMarker && body[k] != CloseMarker
    ensures Accepted(body, fields, true) == StretchEntries(body, fields)
    ensures InsideAfter(body, true)
  {
    if body != [] {
      var n := |body| - 1;
      var init := body[..n];
      assert forall k :: 0 <= k < |init| ==> init[k] == body[k];
      OpenStretch(init, fields);
      AcceptedSnoc(init, body[n], fields, true);
      StretchEntriesAppend(init, body[n], fields);
      assert body == init + [body[n]];
    }
  }

  /** An open marker followed by a marker-free stretch adds the stretch's
      entries, whatever came before, and leaves the section open. */
  lemma OpenThenStretch(a: seq<LineKind>, body: seq<LineKind>, fields: nat)
    requires forall k :: 0 <= k < |body| ==> body[k] != OpenMarker && body[k] != CloseMarker
    ensures Accepted(a + [OpenMarker] + body, fields, false)
            == Accepted(a, fields, false) + StretchEntries(body, fields)
    ensures InsideAfter(a + [OpenMarker] + body, false)
  {
    AcceptedSnoc(a, OpenMarker, fields, false);
    OpenStretch(body, fields);
    AcceptedAppend(a + [OpenMarker], body, fields, false);
    InsideAfterAppend(a + [OpenMarker], body, false);
  }

  /** A close marker followed by lines without an open marker adds nothing
      and leaves the section closed. */
  lemma CloseThenIgnored(a: seq<LineKind>, rest: seq<LineKind>, fields: nat)
    requires forall k :: 0 <= k < |rest| ==> rest[k] != OpenMarker
    ensures Accepted(a + [CloseMarker] + rest, fields, false) == Accepted(a, fields, false)
    ensures !InsideAfter(a + [CloseMarker] + rest, false)
  {
    AcceptedSnoc(a, CloseMarker, fields, false);
    ClosedStretchIgnored(rest, fields);
    AcceptedAppend(a + [CloseMarker], rest, fields, false);
    InsideAfterAppend(a + [CloseMarker], rest, false);
  }

  /** A section that is opened, closed and opened again collects the entries
      of both open stretches, and nothing from the lines around them. */
  lemma ReopenedSection(pre: seq<LineKind>, body1: seq<LineKind>, mid: seq<LineKind>,
                        body2: seq<LineKind>, fields: nat)
    requires forall k :: 0 <= k < |pre| ==> pre[k] != OpenMarker
    requires forall k :: 0 <= k < |mid| ==> mid[k] != OpenMarker
    requires forall k :: 0 <= k < |body1| ==> body1[k] != OpenMarker && body1[k] != CloseMarker
    requires forall k :: 0 <= k < |body2| ==> body2[k] != OpenMarker && body2[k] != CloseMarker
    ensures Accepted(pre + [OpenMarker] + body1 + [CloseMarker] + mid + [OpenMarker] + body2, fields, false)
            == StretchEntries(body1, fields) + StretchEntries(body2, fields)
  {
    ClosedStretchIgnored(pre, fields);
    var s1 := pre + [OpenMarker] + body1;
    OpenThenStretch(pre, body1, fields);
    var s2 := s1 + [CloseMarker] + mid;
    CloseThenIgnored(s1, mid, fields);
    OpenThenStretch(s2, body2, fields);
    assert Accepted(s1, fields, false) == StretchEntries(body1, fields);
    assert Accepted(s2, fields, false) == StretchEntries(body1, fields);
  }
}
