/** `parseInput` of the query page: free text typed into a text area becomes
    the ordered list of identifiers the batch loops walk. */
module Normalizer {
  import opened JsValues
  import opened Text

  const Comma := ','

  /** What `JSON.parse(input)` did: returned a value, or threw. The parser
      itself is not modelled; its outcome is an input of `ParseInput`. */
  datatype ParseOutcome = Parsed(value: JsValue) | Fails

  /** `text.split(',').map(item => item.trim())`. Every piece is a string
      with no comma and no whitespace at either end, and there is one piece
      more than the text has commas. */
  function SplitTrim(text: string): (ids: seq<JsValue>)
    ensures |ids| == CountOf(text, Comma) + 1
    ensures forall k :: 0 <= k < |ids| ==>
              ids[k].JsString? && Comma !in ids[k].s && IsTrimmed(ids[k].s)
  {
    var pieces := Split(text, Comma);
    SplitCount(text, Comma);
    assert forall k :: 0 <= k < |pieces| ==> Comma !in Trim(pieces[k]) by {
      forall k | 0 <= k < |pieces| {
        TrimKeepsOut(pieces[k], Comma);
      }
    }
    seq(|pieces|, k requires 0 <= k < |pieces| => JsString(Trim(pieces[k])))
  }

  /** The parsed value is an array, which `parseInput` hands back as it is. */
  predicate IsArrayParse(parsed: ParseOutcome) {
    parsed.Parsed? && parsed.value.JsArray?
  }

  /** The text that gets split when the parse did not give an array: the
      content of a parsed JSON string, or else the raw input. A parse that
      failed and a parsed number, boolean, `null` or object end up alike,
      because calling `.split` on a non-string throws a TypeError that the
      same `catch` absorbs. */
  function SplitSource(input: string, parsed: ParseOutcome): string {
    if parsed.Parsed? && parsed.value.JsString? then parsed.value.s else input
  }

  /** `parseInput(input)`, given what `JSON.parse(input)` did. It is total: no
      outcome of the parse makes it fail. A parsed array comes back unchanged,
      element for element and untrimmed; anything else becomes the trimmed
      comma split of the parsed string or of the raw text, one identifier per
      piece. */
  function ParseInput(input: string, parsed: ParseOutcome): (ids: seq<JsValue>)
    ensures IsArrayParse(parsed) ==> ids == parsed.value.elements
    ensures !IsArrayParse(parsed) ==>
              var text := SplitSource(input, parsed);
              |ids| == CountOf(text, Comma) + 1
              && forall k :: 0 <= k < |ids| ==>
                   ids[k].JsString? && Comma !in ids[k].s && IsTrimmed(ids[k].s)
    ensures !IsArrayParse(parsed) ==> ids == SplitTrim(SplitSource(input, parsed))
    ensures parsed.Fails? || !(parsed.value.JsArray? || parsed.value.JsString?) ==>
              ids == SplitTrim(input)
    ensures ids == [] ==> parsed == Parsed(JsArray([]))
  {
    match parsed
    case Parsed(JsArray(elements)) => elements
    case Parsed(JsString(s)) => SplitTrim(s)
    case Parsed(_) => SplitTrim(input)
    case Fails => SplitTrim(input)
  }

  /** Facts every real outcome of `JSON.parse(input)` satisfies. They do not
      define the parser; they only rule out outcomes it can never have: text
      that is blank after trimming does not parse, an array must be written
      between `[` and `]`, and a string between double quotes. (JSON's own
      whitespace is a subset of what `trim` removes, so the trimmed text starts
      and ends with the parsed value's first and last characters.) */
  predicate ParseConsistent(input: string, parsed: ParseOutcome) {
    var core := Trim(input);
    match parsed
    case Fails => true
    case Parsed(v) =>
      core != []
      && (v.JsArray? ==> |core| >= 2 && core[0] == '[' && core[|core| - 1] == ']')
      && (v.JsString? ==> |core| >= 2 && core[0] == '"' && core[|core| - 1] == '"')
  }

  /** Text that, once trimmed, neither opens an array nor a string is split on
      its raw commas, whatever `JSON.parse` made of it. */
  lemma PlainTextFallsBack(input: string, parsed: ParseOutcome)
    requires ParseConsistent(input, parsed)
    requires var core := Trim(input); core == [] || (core[0] != '[' && core[0] != '"')
    ensures ParseInput(input, parsed) == SplitTrim(input)
  {
  }

  /** Empty input gives one empty identifier: `JSON.parse("")` throws and
      `"".split(',')` is `[""]`. */
  lemma EmptyInput(parsed: ParseOutcome)
    requires ParseConsistent("", parsed)
    ensures ParseInput("", parsed) == [JsString("")]
  {
    assert Trim("") == "";
    assert Split("", Comma) == [""];
  }

  /** A list typed as comma-separated text yields each typed item, trimmed,
      in the order typed: `"0xAA, 0xBB ,0xCC"` gives `0xAA`, `0xBB`, `0xCC`. */
  lemma {:induction false} SplitTrimJoin(items: seq<string>)
    requires |items| >= 1
    requires forall k :: 0 <= k < |items| ==> Comma !in items[k]
    ensures SplitTrim(Join(items, Comma))
            == seq(|items|, k requires 0 <= k < |items| => JsString(Trim(items[k])))
  {
    SplitJoin(items, Comma);
  }

  /** Array text that is not closed, such as `[0xAA, oops`, is not reported as
      an error: whatever `JSON.parse` did, the raw text is split on its commas,
      bracket included. */
  lemma UnclosedArrayFallsBack(input: string, parsed: ParseOutcome)
    requires ParseConsistent(input, parsed)
    requires var core := Trim(input); core != [] && core[0] == '[' && core[|core| - 1] != ']'
    ensures ParseInput(input, parsed) == SplitTrim(input)
  {
  }
}
