/** The line matchers of the component and script modules, stated directly
    as string functions instead of through regular expressions:
    `^\b(VERSION|__version__)\s*=\s*['"](.*)['"]` for the installed version
    and `^\bREQUIREMENTS\s*=\s*(.*)` for the dependency list. Each is
    applied with `re.match` to every line `readlines()` returns, and the
    last matching line wins. */
module VersionLine {
  import opened Wrappers
  import opened Text

  predicate IsQuote(c: char) {
    c == '\'' || c == '"'
  }

  predicate NoQuote(s: string) {
    forall k :: 0 <= k < |s| ==> !IsQuote(s[k])
  }

  /** The text `.` can match from the start of `s`: up to the first newline. */
  function LineRest(s: string): (r: string)
    ensures StartsWith(s, r) && '\n' !in r
    ensures |r| < |s| ==> s[|r|] == '\n'
  {
    var r := BeforeFirst(s, "\n");
    CharNotContained(r, '\n');
    if |r| < |s| then
      if !Contains(s, "\n") then r
      else
        assert s[|r|..|r| + 1] == "\n";
        r
    else r
  }

  /** The line-local part of `u + v` is `u` when `u` has no newline and `v`
      is empty or starts with one. */
  lemma LineRestSplit(u: string, v: string)
    requires '\n' !in u && (|v| == 0 || v[0] == '\n')
    ensures LineRest(u + v) == u
  {
    var s := u + v;
    var r := LineRest(s);
    assert forall i :: 0 <= i < |u| ==> s[i] == u[i];
    assert forall i :: 0 <= i < |r| ==> r[i] == s[i];
    assert |u| < |s| ==> s[|u|] == v[0];
    assert s[..|u|] == u;
  }

  /** The line-local part of `u + v` is `u` followed by that of `v` when
      `u` has no newline. */
  lemma LineRestPrefix(u: string, v: string)
    requires '\n' !in u
    ensures LineRest(u + v) == u + LineRest(v)
  {
    var w := LineRest(v);
    var rest := v[|w|..];
    assert v == w + rest;
    assert u + v == (u + w) + rest;
    LineRestSplit(u + w, rest);
  }

  /** The index of the last quote character of `s`. */
  function LastQuote(s: string): (r: Option<nat>)
    ensures r.Some? ==> r.value < |s| && IsQuote(s[r.value]) && NoQuote(s[r.value + 1..])
    ensures r.None? ==> NoQuote(s)
  {
    if |s| == 0 then None
    else if IsQuote(s[|s| - 1]) then Some(|s| - 1)
    else
      var r := LastQuote(s[..|s| - 1]);
      if r.Some? then
        assert s[r.value + 1..] == s[..|s| - 1][r.value + 1..] + [s[|s| - 1]];
        r
      else r
  }

  /** The last quote is the one no quote follows. */
  lemma {:induction false} LastQuoteAt(p: string, q: char, t: string)
    requires IsQuote(q) && NoQuote(t)
    ensures LastQuote(p + [q] + t) == Some(|p|)
    decreases |t|
  {
    var s := p + [q] + t;
    if |t| == 0 {
      assert s == p + [q];
    } else {
      var t' := t[..|t| - 1];
      assert s[..|s| - 1] == p + [q] + t';
      assert s[|s| - 1] == t[|t| - 1];
      LastQuoteAt(p, q, t');
    }
  }

  /** The text after a leading `VERSION` or `__version__`. */
  function AfterMarker(line: string): Option<string>
  {
    if StartsWith(line, "VERSION") then Some(line[7..])
    else if StartsWith(line, "__version__") then Some(line[11..])
    else None
  }

  /** Group 2 of the version pattern on one line, if the line matches:
      after the marker, optional whitespace, `=`, optional whitespace and
      one quote, the greedy `(.*)` followed by a quote captures everything
      up to the last quote before the end of the line. */
  function MatchVersion(line: string): Option<string>
  {
    match AfterMarker(line)
    case None => None
    case Some(afterMarker) => MatchAssignment(afterMarker)
  }

  /** `\s*=\s*` and the rest of the pattern. */
  function MatchAssignment(s: string): Option<string>
  {
    var a := SkipSpace(s);
    if |a| == 0 || a[0] != '=' then None else MatchQuoted(SkipSpace(a[1..]))
  }

  /** `['"](.*)['"]` at the start of `b`. */
  function MatchQuoted(b: string): Option<string>
  {
    if |b| == 0 || !IsQuote(b[0]) then None else Capture(LineRest(b[1..]))
  }

  /** `(.*)['"]` on the line-local text `body`: greedy, so up to the last quote. */
  function Capture(body: string): Option<string>
  {
    match LastQuote(body)
    case None => None
    case Some(k) => Some(body[..k])
  }

  predicate IsMarker(marker: string) {
    marker == "VERSION" || marker == "__version__"
  }

  /** A version line assembled from its parts. */
  function VersionLineOf(marker: string, ws1: string, ws2: string, open: char, value: string,
                         close: char, tail: string): string
  {
    marker + ws1 + "=" + ws2 + [open] + value + [close] + tail
  }

  /** The parts of a line the version pattern accepts with `value` as its
      capture: no quote may follow the closing one on the same line. */
  predicate VersionParts(marker: string, ws1: string, ws2: string, open: char, value: string,
                         close: char, tail: string)
  {
    && IsMarker(marker) && AllSpace(ws1) && AllSpace(ws2)
    && IsQuote(open) && IsQuote(close)
    && '\n' !in value && NoQuote(LineRest(tail))
  }

  lemma AfterMarkerOf(marker: string, rest: string)
    requires IsMarker(marker)
    ensures AfterMarker(marker + rest) == Some(rest)
  {
    var line := marker + rest;
    assert line[..|marker|] == marker;
    assert line[|marker|..] == rest;
    if marker == "__version__" {
      assert line[0] == '_';
    }
  }

  lemma CaptureOf(value: string, close: char, tail: string)
    requires IsQuote(close) && '\n' !in value && NoQuote(LineRest(tail))
    ensures Capture(LineRest(value + [close] + tail)) == Some(value)
  {
    var body := value + [close] + LineRest(tail);
    assert value + [close] + tail == value + ([close] + tail);
    assert '\n' !in [close];
    LineRestPrefix([close], tail);
    LineRestPrefix(value, [close] + tail);
    assert LineRest(value + [close] + tail) == body;
    LastQuoteAt(value, close, LineRest(tail));
    assert body[..|value|] == value;
  }

  /** Whitespace before an opening quote is skipped. */
  lemma MatchQuotedAfterSpace(ws: string, b: string)
    requires AllSpace(ws) && |b| > 0 && IsQuote(b[0])
    ensures MatchQuoted(SkipSpace(ws + b)) == Capture(LineRest(b[1..]))
  {
    SkipSpacePrefix(ws, b);
  }

  /** Every line built from well-formed parts matches, capturing its value. */
  lemma MatchVersionComplete(marker: string, ws1: string, ws2: string, open: char, value: string,
                             close: char, tail: string)
    requires VersionParts(marker, ws1, ws2, open, value, close, tail)
    ensures MatchVersion(VersionLineOf(marker, ws1, ws2, open, value, close, tail)) == Some(value)
  {
    var rest := value + [close] + tail;
    var b := [open] + rest;
    var rest1 := ws1 + "=" + ws2 + b;
    assert VersionLineOf(marker, ws1, ws2, open, value, close, tail) == marker + rest1;
    AfterMarkerOf(marker, rest1);
    MatchAssignmentOf(ws1, ws2, b);
    assert b[1..] == rest;
    CaptureOf(value, close, tail);
  }

  /** `\s*=\s*` followed by a quote: the capture is taken after the quote. */
  lemma MatchAssignmentOf(ws1: string, ws2: string, b: string)
    requires AllSpace(ws1) && AllSpace(ws2) && |b| > 0 && IsQuote(b[0])
    ensures MatchAssignment(ws1 + "=" + ws2 + b) == Capture(LineRest(b[1..]))
  {
    var a := "=" + (ws2 + b);
    assert ws1 + "=" + ws2 + b == ws1 + a;
    SkipSpacePrefix(ws1, a);
    assert a[1..] == ws2 + b;
    MatchQuotedAfterSpace(ws2, b);
  }

  /** The closing quote and what follows it on a line whose capture is `value`. */
  lemma CaptureParts(body: string, value: string) returns (close: char, rest: string)
    requires '\n' !in body && Capture(body) == Some(value)
    ensures body == value + [close] + rest && IsQuote(close) && NoQuote(rest)
    ensures '\n' !in value && '\n' !in rest
  {
    var k := LastQuote(body).value;
    close := body[k];
    rest := body[k + 1..];
    assert body == body[..k] + [close] + rest;
    assert forall i :: 0 <= i < |value| ==> value[i] == body[i];
    assert forall i :: 0 <= i < |rest| ==> rest[i] == body[k + 1 + i];
  }

  /** The marker a matching line starts with. */
  lemma MarkerParts(line: string) returns (marker: string)
    requires AfterMarker(line).Some?
    ensures IsMarker(marker) && line == marker + AfterMarker(line).value
  {
    marker := if StartsWith(line, "VERSION") then "VERSION" else "__version__";
  }

  /** The whitespace `\s*` consumes at the start of `s`. */
  lemma SpaceParts(s: string) returns (ws: string)
    ensures AllSpace(ws) && s == ws + SkipSpace(s)
  {
    var r := SkipSpace(s);
    ws := s[..|s| - |r|];
    SplitAt(s, |s| - |r|);
  }

  lemma SplitAt(s: string, k: nat)
    requires k <= |s|
    ensures s == s[..k] + s[k..]
  {
  }

  /** The quotes and the rest of the line around a capture. */
  lemma QuotedParts(b: string, value: string) returns (open: char, close: char, tail: string)
    requires MatchQuoted(b) == Some(value)
    ensures b == [open] + value + [close] + tail
    ensures IsQuote(open) && IsQuote(close) && '\n' !in value && NoQuote(LineRest(tail))
  {
    open := b[0];
    var body := LineRest(b[1..]);
    var bodyRest;
    close, bodyRest := CaptureParts(body, value);
    var after := b[1..][|body|..];
    tail := bodyRest + after;
    assert b[1..] == body + after;
    JoinQuoted(b, body, after, value, close, bodyRest);
    assert |after| == 0 || after[0] == '\n';
    LineRestSplit(bodyRest, after);
  }

  lemma JoinQuoted(b: string, body: string, after: string, value: string, close: char, bodyRest: string)
    requires |b| > 0 && b[1..] == body + after && body == value + [close] + bodyRest
    ensures b == [b[0]] + value + [close] + (bodyRest + after)
  {
    assert b == [b[0]] + b[1..];
  }

  /** The two runs of whitespace around the `=` and the quoted rest. */
  lemma AssignmentParts(s: string, value: string) returns (ws1: string, ws2: string, b: string)
    requires MatchAssignment(s) == Some(value)
    ensures s == ws1 + "=" + ws2 + b && AllSpace(ws1) && AllSpace(ws2)
    ensures MatchQuoted(b) == Some(value)
  {
    var a := SkipSpace(s);
    ws1 := SpaceParts(s);
    ws2 := SpaceParts(a[1..]);
    b := SkipSpace(a[1..]);
    Regroup(s, ws1, a, ws2, b);
  }

  lemma Regroup(s: string, ws1: string, a: string, ws2: string, b: string)
    requires s == ws1 + a && |a| > 0 && a[0] == '=' && a[1..] == ws2 + b
    ensures s == ws1 + "=" + ws2 + b
  {
    assert a == "=" + (ws2 + b);
  }

  lemma RegroupLine(line: string, marker: string, rest: string, ws1: string, ws2: string, b: string,
                    open: char, value: string, close: char, tail: string)
    requires line == marker + rest && rest == ws1 + "=" + ws2 + b
    requires b == [open] + value + [close] + tail
    ensures line == VersionLineOf(marker, ws1, ws2, open, value, close, tail)
  {
  }

  /** Every match comes from a line of that shape. */
  lemma MatchVersionSound(line: string, value: string)
    requires MatchVersion(line) == Some(value)
    ensures exists marker, ws1, ws2, open, close, tail ::
      VersionParts(marker, ws1, ws2, open, value, close, tail)
      && line == VersionLineOf(marker, ws1, ws2, open, value, close, tail)
  {
    var marker := MarkerParts(line);
    var ws1, ws2, b := AssignmentParts(AfterMarker(line).value, value);
    var open, close, tail := QuotedParts(b, value);
    RegroupLine(line, marker, AfterMarker(line).value, ws1, ws2, b, open, value, close, tail);
    assert VersionParts(marker, ws1, ws2, open, value, close, tail);
  }

  /** The loop of `get_local_version`: every match overwrites the result. */
  function ScanVersion(lines: seq<string>, current: string): string
  {
    if |lines| == 0 then current
    else ScanVersion(lines[1..], MatchVersion(lines[0]).GetOr(current))
  }

  /** `get_local_version(path)`: `file` holds the lines of the file at
      `path`, `None` when there is no such file. */
  function LocalVersion(file: Option<seq<string>>): string
  {
    match file
    case None => ""
    case Some(lines) => ScanVersion(lines, "")
  }

  /** The last matching line wins. */
  lemma {:induction false} ScanVersionLastMatch(lines: seq<string>, current: string, i: nat)
    requires i < |lines| && MatchVersion(lines[i]).Some?
    requires forall j :: i < j < |lines| ==> MatchVersion(lines[j]).None?
    ensures ScanVersion(lines, current) == MatchVersion(lines[i]).value
  {
    var rest := lines[1..];
    assert ScanVersion(lines, current) == ScanVersion(rest, MatchVersion(lines[0]).GetOr(current));
    forall j | i <= j < |rest|
      ensures MatchVersion(rest[j]).None?
    {
      assert rest[j] == lines[j + 1];
    }
    if i > 0 {
      assert rest[i - 1] == lines[i];
      ScanVersionLastMatch(rest, MatchVersion(lines[0]).GetOr(current), i - 1);
    } else {
      ScanVersionNoMatch(rest, MatchVersion(lines[0]).value);
    }
  }

  /** Without a matching line the result is what it was. */
  lemma {:induction false} ScanVersionNoMatch(lines: seq<string>, current: string)
    requires forall j :: 0 <= j < |lines| ==> MatchVersion(lines[j]).None?
    ensures ScanVersion(lines, current) == current
  {
    if |lines| > 0 {
      ScanVersionNoMatch(lines[1..], current);
    }
  }

  /** `get_local_version` returns `''` for a missing file or one without a
      matching line, and otherwise the capture of the last matching line. */
  lemma LocalVersionSpec(file: Option<seq<string>>)
    ensures file.None? ==> LocalVersion(file) == ""
    ensures file.Some? && (forall j :: 0 <= j < |file.value| ==> MatchVersion(file.value[j]).None?)
            ==> LocalVersion(file) == ""
    ensures forall i ::
              (file.Some? && 0 <= i < |file.value| && MatchVersion(file.value[i]).Some?
               && (forall j :: i < j < |file.value| ==> MatchVersion(file.value[j]).None?))
              ==> LocalVersion(file) == MatchVersion(file.value[i]).value
  {
    if file.Some? {
      var lines := file.value;
      if forall j :: 0 <= j < |lines| ==> MatchVersion(lines[j]).None? {
        ScanVersionNoMatch(lines, "");
      }
      forall i | 0 <= i < |lines| && MatchVersion(lines[i]).Some?
        && (forall j :: i < j < |lines| ==> MatchVersion(lines[j]).None?)
        ensures LocalVersion(file) == MatchVersion(lines[i]).value
      {
        ScanVersionLastMatch(lines, "", i);
      }
    }
  }

  /** Group 1 of the requirements pattern: after `REQUIREMENTS`, optional
      whitespace, `=` and optional whitespace, the rest of the line. */
  function MatchRequirements(line: string): Option<string>
  {
    if !StartsWith(line, "REQUIREMENTS") then None
    else
      var a := SkipSpace(line[12..]);
      if |a| == 0 || a[0] != '=' then None
      else Some(LineRest(SkipSpace(a[1..])))
  }

  /** The four `replace` calls of `update_requirements`. */
  function CleanRequirements(value: string): string
  {
    Replace(Replace(Replace(Replace(value, "[", ""), "]", ""), ",", ""), "'", "")
  }

  /** The cleaning deletes exactly the brackets, commas and single quotes. */
  lemma CleanRequirementsDeletes(value: string)
    ensures CleanRequirements(value) == Without(Without(Without(Without(value, '['), ']'), ','), '\'')
    ensures forall c :: c in CleanRequirements(value) <==> c in value && c !in "[],'"
  {
    ReplaceCharDeletes(value, '[');
    var v1 := Without(value, '[');
    ReplaceCharDeletes(v1, ']');
    var v2 := Without(v1, ']');
    ReplaceCharDeletes(v2, ',');
    var v3 := Without(v2, ',');
    ReplaceCharDeletes(v3, '\'');
    WithoutMembers(value, '[');
    WithoutMembers(v1, ']');
    WithoutMembers(v2, ',');
    WithoutMembers(v3, '\'');
  }

  lemma {:induction false} WithoutMembers(s: string, c: char)
    ensures forall x :: x in Without(s, c) <==> x in s && x != c
    decreases |s|
  {
    if |s| > 0 {
      WithoutMembers(s[1..], c);
      assert s == [s[0]] + s[1..];
    }
  }

  /** The loop of `update_requirements`: the last matching line wins. */
  function ScanRequirements(lines: seq<string>, current: Option<string>): Option<string>
  {
    if |lines| == 0 then current
    else
      var next := match MatchRequirements(lines[0])
        case Some(v) => Some(CleanRequirements(v))
        case None => current;
      ScanRequirements(lines[1..], next)
  }

  /** The packages `update_requirements(path)` hands to `common.update`, in
      order: `file` holds the lines of the file at `path`, `None` when there
      is no such file. */
  function RequirementsToInstall(file: Option<seq<string>>): seq<string>
  {
    match file
    case None => []
    case Some(lines) =>
      match ScanRequirements(lines, None)
      case None => []
      case Some(value) => Split(value, " ")
  }

  /** Without a matching line the result is what it was. */
  lemma {:induction false} ScanRequirementsNoMatch(lines: seq<string>, current: Option<string>)
    requires forall j :: 0 <= j < |lines| ==> MatchRequirements(lines[j]).None?
    ensures ScanRequirements(lines, current) == current
  {
    if |lines| > 0 {
      ScanRequirementsNoMatch(lines[1..], current);
    }
  }

  /** The last matching line wins. */
  lemma {:induction false} ScanRequirementsLastMatch(lines: seq<string>, current: Option<string>, i: nat)
    requires i < |lines| && MatchRequirements(lines[i]).Some?
    requires forall j :: i < j < |lines| ==> MatchRequirements(lines[j]).None?
    ensures ScanRequirements(lines, current) == Some(CleanRequirements(MatchRequirements(lines[i]).value))
  {
    var rest := lines[1..];
    var next := match MatchRequirements(lines[0])
      case Some(v) => Some(CleanRequirements(v))
      case None => current;
    assert ScanRequirements(lines, current) == ScanRequirements(rest, next);
    forall j | i <= j < |rest|
      ensures MatchRequirements(rest[j]).None?
    {
      assert rest[j] == lines[j + 1];
    }
    if i > 0 {
      assert rest[i - 1] == lines[i];
      ScanRequirementsLastMatch(rest, next, i - 1);
    } else {
      ScanRequirementsNoMatch(rest, next);
    }
  }

  /** With no `REQUIREMENTS` line (or no file) nothing is installed;
      otherwise the last such line, cleaned, is split on single spaces and
      joining the pieces back gives that cleaned value. */
  lemma RequirementsSpec(file: Option<seq<string>>)
    ensures file.None? ==> RequirementsToInstall(file) == []
    ensures file.Some? && (forall j :: 0 <= j < |file.value| ==> MatchRequirements(file.value[j]).None?)
            ==> RequirementsToInstall(file) == []
    ensures forall i ::
              (file.Some? && 0 <= i < |file.value| && MatchRequirements(file.value[i]).Some?
               && (forall j :: i < j < |file.value| ==> MatchRequirements(file.value[j]).None?))
              ==> (var pieces := RequirementsToInstall(file);
                   && |pieces| >= 1 && Join(pieces, " ") == CleanRequirements(MatchRequirements(file.value[i]).value)
                   && forall k :: 0 <= k < |pieces| ==> !Contains(pieces[k], " "))
  {
    if file.Some? {
      var lines := file.value;
      if forall j :: 0 <= j < |lines| ==> MatchRequirements(lines[j]).None? {
        ScanRequirementsNoMatch(lines, None);
      }
      forall i | 0 <= i < |lines| && MatchRequirements(lines[i]).Some?
        && (forall j :: i < j < |lines| ==> MatchRequirements(lines[j]).None?)
        ensures var pieces := RequirementsToInstall(file);
                && |pieces| >= 1 && Join(pieces, " ") == CleanRequirements(MatchRequirements(lines[i]).value)
                && forall k :: 0 <= k < |pieces| ==> !Contains(pieces[k], " ")
      {
        RequirementsLast(lines, i);
      }
    }
  }

  /** The packages installed for the last `REQUIREMENTS` line are its
      cleaned value cut at every single space: no piece holds a space, and
      joining them with single spaces gives the value back. */
  lemma RequirementsLast(lines: seq<string>, i: nat)
    requires i < |lines| && MatchRequirements(lines[i]).Some?
    requires forall j :: i < j < |lines| ==> MatchRequirements(lines[j]).None?
    ensures var pieces := RequirementsToInstall(Some(lines));
            && |pieces| >= 1 && Join(pieces, " ") == CleanRequirements(MatchRequirements(lines[i]).value)
            && forall k :: 0 <= k < |pieces| ==> !Contains(pieces[k], " ")
  {
    var value := CleanRequirements(MatchRequirements(lines[i]).value);
    ScanRequirementsLastMatch(lines, None, i);
    assert RequirementsToInstall(Some(lines)) == Split(value, " ");
    JoinSplit(value, " ");
    SplitPieces(value, " ");
  }
}
