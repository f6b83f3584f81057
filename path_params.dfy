/** The typed path-template matcher `parsePathParams` (index.mjs).

    The path and the template are split on `/` and compared segment by
    segment, left to right. A template segment without `:` is a literal the
    path segment must equal. Any other segment splits at its first `:` into a
    flag (up to and including that colon) and a capture key (the rest); the
    flag decides which path segments are accepted and what is stored under
    the key:

      `:`   one or more of `[A-Za-z0-9_-]`, stored as the string
      `w:`  one or more of `[A-Za-z0-9_]`, stored as the string
      `d:`  one or more ASCII digits, stored as their base-10 value
      `b:`  `true` or `false`, stored as the boolean
      `*:`  any segment without `/` (the empty one too), stored percent-decoded

    Any other flag raises an error. The first segment that does not go
    through decides the outcome; a later duplicate key overwrites an earlier
    one. */
module PathParams {
  import opened Wrappers
  import opened Text
  import opened Decimal
  import opened Uri

  /** A captured value: what `parsePathParams` stores in its result. */
  datatype Param = StrParam(s: string) | IntParam(n: int) | BoolParam(b: bool)

  /** The five supported capture flags. */
  datatype Flag = Plain | Word | Digits | Boolean | Any

  /** A parameter map; null when the path does not match; the "Unsupported
      template flag" error; or the URIError of the percent-decoder. */
  datatype PathResult =
    | Matched(params: map<string, Param>)
    | NoMatch
    | UnsupportedFlag(flag: string)
    | UriError

  /** The flag a segment prefix stands for, if it is one of the five. */
  function FlagOf(prefix: string): Option<Flag> {
    if prefix == ":" then Some(Plain)
    else if prefix == "w:" then Some(Word)
    else if prefix == "d:" then Some(Digits)
    else if prefix == "b:" then Some(Boolean)
    else if prefix == "*:" then Some(Any)
    else None
  }

  /** `\w`: an ASCII letter, an ASCII digit or `_`. */
  predicate IsWordChar(c: char) {
    'A' <= c <= 'Z' || 'a' <= c <= 'z' || '0' <= c <= '9' || c == '_'
  }

  /** `^[\w-]+$` */
  predicate IsPlainText(s: string) {
    |s| > 0 && forall i :: 0 <= i < |s| ==> IsWordChar(s[i]) || s[i] == '-'
  }

  /** `^\w+$` */
  predicate IsWordText(s: string) {
    |s| > 0 && forall i :: 0 <= i < |s| ==> IsWordChar(s[i])
  }

  /** What one flag does with one path segment. */
  datatype Capture = Accepted(value: Param) | Rejected | DecodeFailed

  function CaptureOf(flag: Flag, part: string, decode: Decoder): Capture {
    match flag
    case Plain => if IsPlainText(part) then Accepted(StrParam(part)) else Rejected
    case Word => if IsWordText(part) then Accepted(StrParam(part)) else Rejected
    case Digits => if IsDigits(part) then Accepted(IntParam(DecimalValue(part))) else Rejected
    case Boolean =>
      if part == "true" then Accepted(BoolParam(true))
      else if part == "false" then Accepted(BoolParam(false))
      else Rejected
    case Any =>
      if '/' in part then Rejected
      else match decode(part)
        case Some(d) => Accepted(StrParam(d))
        case None => DecodeFailed
  }

  /** A template segment: a literal, or a flag prefix and a capture key. */
  datatype Segment = Literal(text: string) | Placeholder(prefix: string, key: string)

  /** The reading of one template segment: literal when it holds no `:`,
      otherwise split after its first `:` (see `SegmentShape`). */
  function SegmentOf(part: string): Segment {
    var c := IndexOf(part, ":");
    if c == -1 then Literal(part)
    else Placeholder(part[..c + 1], part[c + 1..])
  }

  /** A segment is literal exactly when it has no colon; otherwise its flag
      runs up to and including its first colon and its key is the rest. */
  lemma SegmentShape(part: string)
    ensures var seg := SegmentOf(part);
      (seg.Literal? <==> ':' !in part) &&
      (seg.Literal? ==> seg.text == part) &&
      (seg.Placeholder? ==>
        part == seg.prefix + seg.key && |seg.prefix| > 0 &&
        seg.prefix[|seg.prefix| - 1] == ':' && ':' !in seg.prefix[..|seg.prefix| - 1])
  {
    var c := IndexOf(part, ":");
    IncludesChar(part, ':');
    if c >= 0 {
      FirstColon(part);
      var prefix := part[..c + 1];
      assert prefix[..c] == part[..c];
      assert part == prefix + part[c + 1..];
    }
  }

  /** The index `indexOf(":")` finds holds the first colon. */
  lemma FirstColon(part: string)
    requires IndexOf(part, ":") >= 0
    ensures var c := IndexOf(part, ":");
      c < |part| && part[c] == ':' && ':' !in part[..c]
  {
    var c := IndexOf(part, ":");
    IndexOfFirst(part, ":");
    OccursAtChar(part, ':', c);
    forall j | 0 <= j < c
      ensures part[j] != ':'
    {
      OccursAtChar(part, ':', j);
    }
  }

  /** A result that ends the call: anything but a parameter map. */
  type Failed = r: PathResult | !r.Matched? witness NoMatch

  /** What one segment does, apart from the parameters captured before it:
      go through as it is, store a value under a key, or end the call. */
  datatype Outcome = Pass | Bind(key: string, value: Param) | Stop(result: Failed)

  /** What a segment with a flag prefix and a key does. */
  function CaptureOutcome(pathPart: string, prefix: string, key: string, decode: Decoder): (o: Outcome)
    ensures !o.Pass?
    ensures o.Bind? ==> o.key == key
    ensures FlagOf(prefix).None? <==> o == Stop(UnsupportedFlag(prefix))
  {
    match FlagOf(prefix)
    case None => Stop(UnsupportedFlag(prefix))
    case Some(flag) =>
      match CaptureOf(flag, pathPart, decode)
      case Accepted(v) => Bind(key, v)
      case Rejected => Stop(NoMatch)
      case DecodeFailed => Stop(UriError)
  }

  /** What the path segment `pathPart` does against the template segment
      `templatePart`. */
  function OutcomeOf(pathPart: string, templatePart: string, decode: Decoder): Outcome {
    match SegmentOf(templatePart)
    case Literal(t) => if pathPart == t then Pass else Stop(NoMatch)
    case Placeholder(prefix, key) => CaptureOutcome(pathPart, prefix, key, decode)
  }

  /** One iteration of the loop: the parameters after the segment, or the
      result that ends the call. */
  function Apply(outcome: Outcome, params: map<string, Param>): PathResult {
    match outcome
    case Pass => Matched(params)
    case Bind(k, v) => Matched(params[k := v])
    case Stop(r) => r
  }

  /** The outcomes of the segment pairs, in order. */
  function Outcomes(pathParts: seq<string>, templateParts: seq<string>, decode: Decoder): seq<Outcome>
    requires |pathParts| == |templateParts|
  {
    seq(|templateParts|, j requires 0 <= j < |templateParts| => OutcomeOf(pathParts[j], templateParts[j], decode))
  }

  /** The loop from index `i` on, starting from the parameters `params`. */
  function RunFrom(outcomes: seq<Outcome>, i: nat, params: map<string, Param>): PathResult
    requires i <= |outcomes|
    decreases |outcomes| - i
  {
    if i == |outcomes| then Matched(params)
    else match Apply(outcomes[i], params)
      case Matched(next) => RunFrom(outcomes, i + 1, next)
      case failure => failure
  }

  /** The `/`-segments of a path or a template. */
  function Segments(s: string): seq<string> {
    Split(s, "/")
  }

  /** What `parsePathParams(path, template)` returns or throws. */
  function PathParamsOf(path: string, template: string, decode: Decoder): PathResult {
    var pathParts := Segments(path);
    var templateParts := Segments(template);
    if |pathParts| != |templateParts| then NoMatch
    else RunFrom(Outcomes(pathParts, templateParts, decode), 0, map[])
  }

  /** A segment without a colon is a literal the path segment must equal. */
  lemma LiteralUnfold(templatePart: string, pathPart: string, decode: Decoder)
    requires IndexOf(templatePart, ":") == -1
    ensures OutcomeOf(pathPart, templatePart, decode) ==
      if pathPart == templatePart then Pass else Stop(NoMatch)
  {
  }

  /** A segment the loop reads as a flag and a key is a capture. */
  lemma CaptureUnfold(templatePart: string, pathPart: string, decode: Decoder)
    requires IndexOf(templatePart, ":") >= 0
    ensures var c := IndexOf(templatePart, ":");
      OutcomeOf(pathPart, templatePart, decode) ==
        CaptureOutcome(pathPart, templatePart[..c + 1], templatePart[c + 1..], decode)
  {
  }

  /** The `switch` of `parsePathParams` on a segment's flag: the parameters
      with the capture added, or the result that ends the call. */
  method MatchCapture(pathPart: string, paramFlag: string, key: string, params: map<string, Param>,
                      decode: Decoder) returns (r: PathResult)
    ensures r == Apply(CaptureOutcome(pathPart, paramFlag, key, decode), params)
  {
    if paramFlag == ":" {
      if IsPlainText(pathPart) {
        return Matched(params[key := StrParam(pathPart)]);
      }
      return NoMatch;
    } else if paramFlag == "w:" {
      if IsWordText(pathPart) {
        return Matched(params[key := StrParam(pathPart)]);
      }
      return NoMatch;
    } else if paramFlag == "d:" {
      if IsDigits(pathPart) {
        return Matched(params[key := IntParam(DecimalValue(pathPart))]);
      }
      return NoMatch;
    } else if paramFlag == "b:" {
      if pathPart == "true" {
        return Matched(params[key := BoolParam(true)]);
      }
      if pathPart == "false" {
        return Matched(params[key := BoolParam(false)]);
      }
      return NoMatch;
    } else if paramFlag == "*:" {
      IncludesChar(pathPart, '/');
      if !Includes(pathPart, "/") {
        var decoded := decode(pathPart);
        if decoded.None? {
          return UriError;
        }
        return Matched(params[key := StrParam(decoded.value)]);
      }
      return NoMatch;
    } else {
      return UnsupportedFlag(paramFlag);
    }
  }

  /** `parsePathParams`: the loop over the template's segments, building the
      parameter map and leaving early on the first segment that fails. */
  method ParsePathParams(path: string, template: string, decode: Decoder) returns (r: PathResult)
    ensures r == PathParamsOf(path, template, decode)
  {
    var params: map<string, Param> := map[];
    var pathParts := Split(path, "/");
    var templateParts := Split(template, "/");
    if |pathParts| != |templateParts| {
      return NoMatch;
    }
    ghost var outcomes := Outcomes(pathParts, templateParts, decode);
    for i := 0 to |templateParts|
      invariant RunFrom(outcomes, i, params) == PathParamsOf(path, template, decode)
    {
      var templatePart := templateParts[i];
      var pathPart := pathParts[i];
      var colonIndex := IndexOf(templatePart, ":");
      if colonIndex == -1 {
        LiteralUnfold(templatePart, pathPart, decode);
        if pathPart != templatePart {
          return NoMatch;
        }
      } else {
        var paramFlag := templatePart[..colonIndex + 1];
        var key := templatePart[colonIndex + 1..];
        CaptureUnfold(templatePart, pathPart, decode);
        var outcome := MatchCapture(pathPart, paramFlag, key, params, decode);
        if !outcome.Matched? {
          return outcome;
        }
        params := outcome.params;
      }
    }
    return Matched(params);
  }

  // ---------------------------------------------------------------------
  // Properties of the matcher

  /** Paths and templates with different numbers of `/` never match,
      whatever their segments hold. */
  lemma SegmentCountMismatch(path: string, template: string, decode: Decoder)
    requires CountChar(path, '/') != CountChar(template, '/')
    ensures PathParamsOf(path, template, decode) == NoMatch
  {
    SplitCount(path, '/');
    SplitCount(template, '/');
  }

  /** The segments of `a` and `b` agree from index `i` on. */
  predicate SameFrom(a: seq<string>, b: seq<string>, i: nat)
    requires |a| == |b| && i <= |a|
    decreases |a| - i
  {
    i == |a| || (a[i] == b[i] && SameFrom(a, b, i + 1))
  }

  lemma {:induction false} SameFromSlices(a: seq<string>, b: seq<string>, i: nat)
    requires |a| == |b| && i <= |a|
    ensures SameFrom(a, b, i) <==> a[i..] == b[i..]
    decreases |a| - i
  {
    if i < |a| {
      SameFromSlices(a, b, i + 1);
      assert a[i..] == [a[i]] + a[i + 1..];
      assert b[i..] == [b[i]] + b[i + 1..];
    }
  }

  /** The template segments from index `i` on hold no colon. */
  predicate LiteralsOnly(templateParts: seq<string>, i: nat)
    requires i <= |templateParts|
    decreases |templateParts| - i
  {
    i == |templateParts| || (':' !in templateParts[i] && LiteralsOnly(templateParts, i + 1))
  }

  lemma {:induction false} NoColonLiteralsOnly(template: string, i: nat)
    requires ':' !in template && i <= |Segments(template)|
    ensures LiteralsOnly(Segments(template), i)
    decreases |Segments(template)| - i
  {
    if i < |Segments(template)| {
      SplitPiecesLack(template, "/", i, ':');
      NoColonLiteralsOnly(template, i + 1);
    }
  }

  /** Literal segments leave the parameters alone: from index `i` on they
      match exactly when the remaining segments are equal. */
  lemma {:induction false} LiteralsFrom(pathParts: seq<string>, templateParts: seq<string>, i: nat,
                                        decode: Decoder)
    requires |pathParts| == |templateParts| && i <= |templateParts|
    requires LiteralsOnly(templateParts, i)
    ensures RunFrom(Outcomes(pathParts, templateParts, decode), i, map[]) ==
      if SameFrom(pathParts, templateParts, i) then Matched(map[]) else NoMatch
    decreases |templateParts| - i
  {
    if i < |templateParts| {
      SegmentShape(templateParts[i]);
      LiteralsFrom(pathParts, templateParts, i + 1, decode);
    }
  }

  /** A template without any `:` matches exactly the identical path, and
      then yields the empty parameter map (never null). */
  lemma LiteralTemplate(path: string, template: string, decode: Decoder)
    requires ':' !in template
    ensures PathParamsOf(path, template, decode) ==
      if path == template then Matched(map[]) else NoMatch
  {
    var pathParts, templateParts := Segments(path), Segments(template);
    if |pathParts| == |templateParts| {
      NoColonLiteralsOnly(template, 0);
      LiteralsFrom(pathParts, templateParts, 0, decode);
      SameFromSlices(pathParts, templateParts, 0);
      assert pathParts[0..] == pathParts && templateParts[0..] == templateParts;
    }
  }

  /** A template made of one segment, matched against a path of one
      segment, is that segment's step from the empty map. */
  lemma OneSegment(path: string, template: string, decode: Decoder)
    requires '/' !in path && '/' !in template
    ensures PathParamsOf(path, template, decode) == Apply(OutcomeOf(path, template, decode), map[])
  {
    SplitAbsent(path, '/');
    SplitAbsent(template, '/');
    var outcomes := Outcomes([path], [template], decode);
    assert outcomes[0] == OutcomeOf(path, template, decode);
    var first := Apply(outcomes[0], map[]);
    if first.Matched? {
      assert RunFrom(outcomes, 1, first.params) == first;
    }
  }

  /** A segment made of a flag ending in its only colon and a key reads as
      that flag and that key. */
  lemma FlagAndKey(flag: string, key: string)
    requires |flag| > 0 && flag[|flag| - 1] == ':' && ':' !in flag[..|flag| - 1]
    ensures SegmentOf(flag + key) == Placeholder(flag, key)
  {
    var part := flag + key;
    SegmentShape(part);
    assert part[|flag| - 1] == ':';
    var seg := SegmentOf(part);
    assert seg.Placeholder?;
    var p := seg.prefix;
    assert p == part[..|p|];
    assert |p| == |flag|;
    assert p == flag;
  }

  /** A template segment `flag + key` against a one-segment path. */
  lemma Capture1(path: string, flag: string, key: string, decode: Decoder)
    requires '/' !in path && '/' !in flag && '/' !in key
    requires |flag| > 0 && flag[|flag| - 1] == ':' && ':' !in flag[..|flag| - 1]
    ensures PathParamsOf(path, flag + key, decode) == Apply(CaptureOutcome(path, flag, key, decode), map[])
  {
    assert '/' !in flag + key;
    OneSegment(path, flag + key, decode);
    FlagAndKey(flag, key);
  }

  /** Each of the five flags ends in its only colon and holds no `/`. */
  lemma KnownFlagShape(flag: string)
    requires FlagOf(flag).Some?
    ensures |flag| > 0 && flag[|flag| - 1] == ':' && ':' !in flag[..|flag| - 1] && '/' !in flag
  {
    if flag != ":" {
      assert flag[..|flag| - 1] == [flag[0]];
    }
  }

  /** `:` accepts exactly the non-empty strings over `[A-Za-z0-9_-]` and
      stores them as they are. */
  lemma PlainFlag(path: string, key: string, decode: Decoder)
    requires '/' !in path && '/' !in key
    ensures PathParamsOf(path, ":" + key, decode) ==
      if IsPlainText(path) then Matched(map[key := StrParam(path)]) else NoMatch
  {
    KnownFlagShape(":");
    Capture1(path, ":", key, decode);
  }

  /** `w:` accepts exactly the non-empty strings over `[A-Za-z0-9_]` and
      stores them as they are; a `-` is refused. */
  lemma WordFlag(path: string, key: string, decode: Decoder)
    requires '/' !in path && '/' !in key
    ensures PathParamsOf(path, "w:" + key, decode) ==
      if IsWordText(path) then Matched(map[key := StrParam(path)]) else NoMatch
    ensures '-' in path ==> PathParamsOf(path, "w:" + key, decode) == NoMatch
  {
    KnownFlagShape("w:");
    Capture1(path, "w:", key, decode);
  }

  /** `d:` accepts exactly the non-empty digit strings and stores their
      base-10 value; the decimal text of any natural number gives it back. */
  lemma DigitFlag(path: string, key: string, n: nat, decode: Decoder)
    requires '/' !in path && '/' !in key
    ensures PathParamsOf(path, "d:" + key, decode) ==
      if IsDigits(path) then Matched(map[key := IntParam(DecimalValue(path))]) else NoMatch
    ensures PathParamsOf(NatToDigits(n), "d:" + key, decode) == Matched(map[key := IntParam(n)])
  {
    KnownFlagShape("d:");
    Capture1(path, "d:", key, decode);
    var digits := NatToDigits(n);
    assert '/' !in digits;
    Capture1(digits, "d:", key, decode);
  }

  /** `b:` accepts only `true` and `false` and stores the boolean. */
  lemma BoolFlag(path: string, key: string, decode: Decoder)
    requires '/' !in path && '/' !in key
    ensures PathParamsOf(path, "b:" + key, decode) ==
      if path == "true" then Matched(map[key := BoolParam(true)])
      else if path == "false" then Matched(map[key := BoolParam(false)])
      else NoMatch
  {
    KnownFlagShape("b:");
    Capture1(path, "b:", key, decode);
    assert FlagOf("b:") == Some(Boolean);
    if path == "true" {
      assert CaptureOutcome(path, "b:", key, decode) == Bind(key, BoolParam(true));
    } else if path == "false" {
      assert CaptureOutcome(path, "b:", key, decode) == Bind(key, BoolParam(false));
    } else {
      assert CaptureOutcome(path, "b:", key, decode) == Stop(NoMatch);
    }
  }

  /** `*:` accepts every segment, the empty one included, and stores it
      percent-decoded; only a failing decode stops it. */
  lemma AnyFlag(path: string, key: string, decode: Decoder)
    requires '/' !in path && '/' !in key
    ensures PathParamsOf(path, "*:" + key, decode) ==
      match decode(path)
      case Some(d) => Matched(map[key := StrParam(d)])
      case None => UriError
  {
    KnownFlagShape("*:");
    Capture1(path, "*:", key, decode);
    assert FlagOf("*:") == Some(Any);
    match decode(path)
    case Some(d) =>
      assert CaptureOutcome(path, "*:", key, decode) == Bind(key, StrParam(d));
    case None =>
      assert CaptureOutcome(path, "*:", key, decode) == Stop(UriError);
  }

  /** A flag other than the five raises the error naming it, whatever the
      one-segment path is. */
  lemma UnknownFlag(path: string, flag: string, key: string, decode: Decoder)
    requires '/' !in path && '/' !in flag && '/' !in key
    requires |flag| > 0 && flag[|flag| - 1] == ':' && ':' !in flag[..|flag| - 1]
    requires FlagOf(flag).None?
    ensures PathParamsOf(path, flag + key, decode) == UnsupportedFlag(flag)
  {
    Capture1(path, flag, key, decode);
  }


  // ---------------------------------------------------------------------
  // Runs over outcomes: what the loop does whatever the segments are

  /** The keys the outcomes from index `i` on store into. */
  function BoundKeys(outcomes: seq<Outcome>, i: nat): set<string>
    requires i <= |outcomes|
    decreases |outcomes| - i
  {
    if i == |outcomes| then {}
    else (if outcomes[i].Bind? then {outcomes[i].key} else {}) + BoundKeys(outcomes, i + 1)
  }

  /** A run that goes through adds exactly the keys its outcomes store into. */
  lemma {:induction false} RunKeys(outcomes: seq<Outcome>, i: nat, params: map<string, Param>)
    requires i <= |outcomes| && RunFrom(outcomes, i, params).Matched?
    ensures RunFrom(outcomes, i, params).params.Keys == params.Keys + BoundKeys(outcomes, i)
    decreases |outcomes| - i
  {
    if i < |outcomes| {
      RunKeys(outcomes, i + 1, Apply(outcomes[i], params).params);
    }
  }

  /** No outcome from index `i` on stores into `k`. */
  predicate NoBindFrom(outcomes: seq<Outcome>, i: nat, k: string)
    requires i <= |outcomes|
    decreases |outcomes| - i
  {
    i == |outcomes| || (!(outcomes[i].Bind? && outcomes[i].key == k) && NoBindFrom(outcomes, i + 1, k))
  }

  /** A key no later outcome stores into keeps its value to the end. */
  lemma {:induction false} RunKeeps(outcomes: seq<Outcome>, i: nat, params: map<string, Param>, k: string)
    requires i <= |outcomes| && RunFrom(outcomes, i, params).Matched?
    requires k in params && NoBindFrom(outcomes, i, k)
    ensures var m := RunFrom(outcomes, i, params).params; k in m && m[k] == params[k]
    decreases |outcomes| - i
  {
    if i < |outcomes| {
      var next := Apply(outcomes[i], params).params;
      assert k in next && next[k] == params[k];
      RunKeeps(outcomes, i + 1, next, k);
    }
  }

  /** A key holds the value of the last outcome that stores into it. */
  lemma {:induction false} RunLastWrite(outcomes: seq<Outcome>, i: nat, params: map<string, Param>, j: nat)
    requires i <= j < |outcomes| && RunFrom(outcomes, i, params).Matched?
    requires outcomes[j].Bind? && NoBindFrom(outcomes, j + 1, outcomes[j].key)
    ensures var m := RunFrom(outcomes, i, params).params;
      outcomes[j].key in m && m[outcomes[j].key] == outcomes[j].value
    decreases j - i
  {
    var next := Apply(outcomes[i], params).params;
    if i < j {
      RunLastWrite(outcomes, i + 1, next, j);
    } else {
      RunKeeps(outcomes, i + 1, next, outcomes[j].key);
    }
  }

  /** The outcomes at indexes `i` up to `j` (excluded) all go through. */
  predicate PassBetween(outcomes: seq<Outcome>, i: nat, j: nat)
    requires j <= |outcomes|
    decreases j - i
  {
    i >= j || (!outcomes[i].Stop? && PassBetween(outcomes, i + 1, j))
  }

  /** The first outcome that stops the run is its result, whatever the
      parameters. */
  lemma {:induction false} RunFirstStop(outcomes: seq<Outcome>, i: nat, params: map<string, Param>, j: nat)
    requires i <= j < |outcomes| && PassBetween(outcomes, i, j) && outcomes[j].Stop?
    ensures RunFrom(outcomes, i, params) == outcomes[j].result
    decreases j - i
  {
    if i < j {
      RunFirstStop(outcomes, i + 1, Apply(outcomes[i], params).params, j);
    }
  }

  /** A run goes through exactly when none of its outcomes stops it. */
  lemma {:induction false} RunMatchedIffPass(outcomes: seq<Outcome>, i: nat, params: map<string, Param>)
    requires i <= |outcomes|
    ensures RunFrom(outcomes, i, params).Matched? <==> PassBetween(outcomes, i, |outcomes|)
    decreases |outcomes| - i
  {
    if i < |outcomes| && !outcomes[i].Stop? {
      RunMatchedIffPass(outcomes, i + 1, Apply(outcomes[i], params).params);
    }
  }

  lemma {:induction false} PassAt(outcomes: seq<Outcome>, i: nat, j: nat, l: nat)
    requires j <= |outcomes| && i <= l < j && PassBetween(outcomes, i, j)
    ensures !outcomes[l].Stop?
    decreases l - i
  {
    if i < l {
      PassAt(outcomes, i + 1, j, l);
    }
  }

  // ---------------------------------------------------------------------
  // The keys of the result, and which segment a value comes from

  /** The capture key of one template segment, if it has one. */
  function SegmentKeys(templatePart: string): set<string> {
    match SegmentOf(templatePart)
    case Literal(_) => {}
    case Placeholder(_, key) => {key}
  }

  /** The capture keys of the template segments from index `i` on. */
  function KeysFrom(templateParts: seq<string>, i: nat): set<string>
    requires i <= |templateParts|
    decreases |templateParts| - i
  {
    if i == |templateParts| then {}
    else SegmentKeys(templateParts[i]) + KeysFrom(templateParts, i + 1)
  }

  /** The capture keys of a template. */
  function TemplateKeys(template: string): set<string> {
    KeysFrom(Segments(template), 0)
  }

  /** A segment that goes through stores into its own key, if it has one;
      one that stores anything stores into its key. */
  lemma OutcomeKeys(pathPart: string, templatePart: string, decode: Decoder)
    ensures var o := OutcomeOf(pathPart, templatePart, decode);
      (o.Pass? ==> SegmentKeys(templatePart) == {}) &&
      (o.Bind? ==> SegmentKeys(templatePart) == {o.key})
  {
    match SegmentOf(templatePart)
    case Literal(_) =>
    case Placeholder(prefix, key) =>
  }

  lemma {:induction false} BoundKeysFrom(pathParts: seq<string>, templateParts: seq<string>, i: nat,
                                         decode: Decoder)
    requires |pathParts| == |templateParts| && i <= |templateParts|
    requires PassBetween(Outcomes(pathParts, templateParts, decode), i, |templateParts|)
    ensures BoundKeys(Outcomes(pathParts, templateParts, decode), i) == KeysFrom(templateParts, i)
    decreases |templateParts| - i
  {
    if i < |templateParts| {
      var outcomes := Outcomes(pathParts, templateParts, decode);
      var o := outcomes[i];
      assert o == OutcomeOf(pathParts[i], templateParts[i], decode);
      OutcomeKeys(pathParts[i], templateParts[i], decode);
      assert !o.Stop?;
      assert (if o.Bind? then {o.key} else {}) == SegmentKeys(templateParts[i]);
      BoundKeysFrom(pathParts, templateParts, i + 1, decode);
    }
  }

  /** On a match, the keys of the result are exactly the capture keys of the
      template; literal segments add none. */
  lemma MatchedKeys(path: string, template: string, decode: Decoder)
    requires PathParamsOf(path, template, decode).Matched?
    ensures PathParamsOf(path, template, decode).params.Keys == TemplateKeys(template)
  {
    var pathParts, templateParts := Segments(path), Segments(template);
    var outcomes := Outcomes(pathParts, templateParts, decode);
    RunKeys(outcomes, 0, map[]);
    RunMatchedIffPass(outcomes, 0, map[]);
    BoundKeysFrom(pathParts, templateParts, 0, decode);
  }

  /** No template segment from index `i` on captures into `k`. */
  predicate NoKeyFrom(templateParts: seq<string>, i: nat, k: string)
    requires i <= |templateParts|
    decreases |templateParts| - i
  {
    i == |templateParts| || (k !in SegmentKeys(templateParts[i]) && NoKeyFrom(templateParts, i + 1, k))
  }

  lemma {:induction false} NoKeyNoBind(pathParts: seq<string>, templateParts: seq<string>, i: nat,
                                       decode: Decoder, k: string)
    requires |pathParts| == |templateParts| && i <= |templateParts|
    requires NoKeyFrom(templateParts, i, k)
    ensures NoBindFrom(Outcomes(pathParts, templateParts, decode), i, k)
    decreases |templateParts| - i
  {
    if i < |templateParts| {
      OutcomeKeys(pathParts[i], templateParts[i], decode);
      NoKeyNoBind(pathParts, templateParts, i + 1, decode, k);
    }
  }

  /** On a match, a key holds the value its last capturing segment stored:
      a later duplicate key overwrites an earlier one. */
  lemma LastWriteWins(path: string, template: string, decode: Decoder, j: nat, k: string)
    requires |Segments(path)| == |Segments(template)| && j < |Segments(template)|
    requires PathParamsOf(path, template, decode).Matched?
    requires k in SegmentKeys(Segments(template)[j]) && NoKeyFrom(Segments(template), j + 1, k)
    ensures var m := PathParamsOf(path, template, decode).params;
      k in m && OutcomeOf(Segments(path)[j], Segments(template)[j], decode) == Bind(k, m[k])
  {
    var pathParts, templateParts := Segments(path), Segments(template);
    var outcomes := Outcomes(pathParts, templateParts, decode);
    RunMatchedIffPass(outcomes, 0, map[]);
    PassAt(outcomes, 0, |outcomes|, j);
    OutcomeKeys(pathParts[j], templateParts[j], decode);
    NoKeyNoBind(pathParts, templateParts, j + 1, decode, k);
    RunLastWrite(outcomes, 0, map[], j);
  }

  // ---------------------------------------------------------------------
  // The first segment that fails decides the outcome

  /** When the segments before `j` go through and segment `j` does not, the
      call ends as segment `j` does: an earlier mismatch returns null before a
      later unsupported flag is ever looked at, and an unsupported flag
      raises even when a later segment would not match. */
  lemma FirstFailureDecides(path: string, template: string, decode: Decoder, j: nat)
    requires |Segments(path)| == |Segments(template)| && j < |Segments(template)|
    requires PassBetween(Outcomes(Segments(path), Segments(template), decode), 0, j)
    requires OutcomeOf(Segments(path)[j], Segments(template)[j], decode).Stop?
    ensures PathParamsOf(path, template, decode) ==
      OutcomeOf(Segments(path)[j], Segments(template)[j], decode).result
  {
    RunFirstStop(Outcomes(Segments(path), Segments(template), decode), 0, map[], j);
  }

  /** With as many segments on both sides, the path matches exactly when
      every segment goes through. */
  lemma MatchedIffAllPass(path: string, template: string, decode: Decoder)
    requires |Segments(path)| == |Segments(template)|
    ensures PathParamsOf(path, template, decode).Matched? <==>
      PassBetween(Outcomes(Segments(path), Segments(template), decode), 0, |Segments(template)|)
  {
    RunMatchedIffPass(Outcomes(Segments(path), Segments(template), decode), 0, map[]);
  }
}
