/** The form and query-string decoders `parseFormData` and
    `parseQueryParams` (index.mjs). The text is split on `&`; each chunk is
    split on `=` and only its first two pieces are used, as raw key and raw
    value. A chunk whose raw key is empty is skipped; otherwise the key and
    the value (the empty string when it is missing or empty) are
    percent-decoded and the value is coerced by `parseValue`. A later
    duplicate key overwrites an earlier one. */
module Forms {
  import opened Wrappers
  import opened Text
  import opened Values
  import opened Uri

  /** A parsed form, or the URIError of the percent-decoder. */
  datatype FormResult = Form(fields: map<string, Value>) | UriError

  /** The raw key of a chunk: its text up to the first `=`. */
  function RawKey(chunk: string): string {
    Split(chunk, "=")[0]
  }

  /** The raw value of a chunk: the text between its first and second `=`,
      or None when it has no `=` (JavaScript's `undefined`). */
  function RawValue(chunk: string): Option<string> {
    var pieces := Split(chunk, "=");
    if |pieces| > 1 then Some(pieces[1]) else None
  }

  /** What one chunk does to the form, apart from the fields before it. */
  datatype Entry = Skip | Field(key: string, value: Value) | Failure

  /** The text a raw value is decoded to: `val ? decodeURIComponent(val) : ""`. */
  function DecodedValue(raw: Option<string>, decode: Decoder): Option<string> {
    if raw.Some? && raw.value != "" then decode(raw.value) else Some("")
  }

  function EntryOf(chunk: string, decode: Decoder): Entry {
    var key := RawKey(chunk);
    if key == "" then Skip
    else match decode(key)
      case None => Failure
      case Some(decodedKey) =>
        match DecodedValue(RawValue(chunk), decode)
        case None => Failure
        case Some(decodedVal) => Field(decodedKey, ParseValue(decodedVal))
  }

  /** The entries of the chunks, in order. */
  function Entries(chunks: seq<string>, decode: Decoder): seq<Entry> {
    seq(|chunks|, j requires 0 <= j < |chunks| => EntryOf(chunks[j], decode))
  }

  /** The loop from index `i` on, starting from the fields `form`. */
  function FillFrom(entries: seq<Entry>, i: nat, form: map<string, Value>): FormResult
    requires i <= |entries|
    decreases |entries| - i
  {
    if i == |entries| then Form(form)
    else match entries[i]
      case Skip => FillFrom(entries, i + 1, form)
      case Field(k, v) => FillFrom(entries, i + 1, form[k := v])
      case Failure => UriError
  }

  /** The `&`-chunks of a form text. */
  function Chunks(text: string): seq<string> {
    Split(text, "&")
  }

  /** What `parseFormData(text)` returns or throws. */
  function FormDataOf(text: string, decode: Decoder): FormResult {
    FillFrom(Entries(Chunks(text), decode), 0, map[])
  }

  /** `parseFormData`: the loop over the `&`-chunks, assigning into the
      form. */
  method ParseFormData(formText: string, decode: Decoder) returns (r: FormResult)
    ensures r == FormDataOf(formText, decode)
  {
    var form: map<string, Value> := map[];
    var chunks := Split(formText, "&");
    ghost var entries := Entries(chunks, decode);
    for i := 0 to |chunks|
      invariant FillFrom(entries, i, form) == FormDataOf(formText, decode)
    {
      var keyVal := chunks[i];
      var pieces := Split(keyVal, "=");
      var key := pieces[0];
      var val: Option<string> := if |pieces| > 1 then Some(pieces[1]) else None;
      assert key == RawKey(keyVal) && val == RawValue(keyVal);
      assert entries[i] == EntryOf(keyVal, decode);
      if key != "" {
        var decodedKey := decode(key);
        if decodedKey.None? {
          assert entries[i] == Failure;
          return UriError;
        }
        var decodedVal := if val.Some? && val.value != "" then decode(val.value) else Some("");
        assert decodedVal == DecodedValue(val, decode);
        if decodedVal.None? {
          assert entries[i] == Failure;
          return UriError;
        }
        assert entries[i] == Field(decodedKey.value, ParseValue(decodedVal.value));
        form := form[decodedKey.value := ParseValue(decodedVal.value)];
      } else {
        assert entries[i] == Skip;
      }
    }
    return Form(form);
  }

  /** `parseQueryParams`: null (None) exactly when the text holds no `=`,
      and otherwise what `parseFormData` makes of it. */
  function ParseQueryParams(queryText: string, decode: Decoder): (r: Option<FormResult>)
    ensures r.None? <==> '=' !in queryText
    ensures r.Some? ==> r.value == FormDataOf(queryText, decode)
  {
    IncludesChar(queryText, '=');
    if !Includes(queryText, "=") then None else Some(FormDataOf(queryText, decode))
  }

  // ---------------------------------------------------------------------
  // Chunks and their pieces

  /** A chunk without `=` is all key and has no value. */
  lemma KeyOnly(chunk: string)
    requires '=' !in chunk
    ensures RawKey(chunk) == chunk && RawValue(chunk) == None
  {
    SplitAbsent(chunk, '=');
  }

  /** Only the first two `=`-pieces of a chunk count: `a=b` and `a=b=c` both
      read as key `a` and value `b`. */
  lemma KeyAndValue(a: string, b: string, rest: string)
    requires '=' !in a && '=' !in b
    requires rest == "" || rest[0] == '='
    ensures RawKey(a + "=" + b + rest) == a && RawValue(a + "=" + b + rest) == Some(b)
  {
    assert a + "=" + b + rest == a + ['='] + (b + rest);
    SplitFirst(a, '=', b + rest);
    if rest == "" {
      assert b + rest == b;
      SplitAbsent(b, '=');
    } else {
      assert b + rest == b + ['='] + rest[1..];
      SplitFirst(b, '=', rest[1..]);
    }
  }

  /** A missing value and an empty value both give the empty string, which
      `parseValue` keeps as it is. */
  lemma EmptyValue(key: string, decode: Decoder)
    requires '=' !in key && key != "" && decode(key).Some?
    ensures EntryOf(key, decode) == Field(decode(key).value, Str(""))
    ensures EntryOf(key + "=", decode) == Field(decode(key).value, Str(""))
  {
    KeyOnly(key);
    KeyAndValue(key, "", "");
    assert key + "=" + "" + "" == key + "=";
    assert DecodedValue(RawValue(key), decode) == Some("");
    assert DecodedValue(RawValue(key + "="), decode) == Some("");
    assert ParseValue("") == Str("");
  }

  /** A chunk with an empty raw key adds nothing, whatever follows the `=`. */
  lemma EmptyKey(value: string, decode: Decoder)
    ensures EntryOf("=" + value, decode) == Skip
  {
    assert "=" + value == "" + ['='] + value;
    SplitFirst("", '=', value);
  }

  // ---------------------------------------------------------------------
  // Runs over entries: what the loop does whatever the chunks are

  /** Dropping the first entry shifts the run by one. */
  lemma {:induction false} FillShift(entries: seq<Entry>, i: nat, form: map<string, Value>)
    requires 0 < |entries| && i < |entries|
    ensures FillFrom(entries, i + 1, form) == FillFrom(entries[1..], i, form)
    decreases |entries| - i
  {
    if i + 1 < |entries| {
      assert entries[i + 1] == entries[1..][i];
      match entries[i + 1]
      case Skip => FillShift(entries, i + 1, form);
      case Field(k, v) => FillShift(entries, i + 1, form[k := v]);
      case Failure =>
    }
  }

  /** The keys the entries from index `i` on assign to. */
  function FieldKeys(entries: seq<Entry>, i: nat): set<string>
    requires i <= |entries|
    decreases |entries| - i
  {
    if i == |entries| then {}
    else (if entries[i].Field? then {entries[i].key} else {}) + FieldKeys(entries, i + 1)
  }

  lemma {:induction false} FillKeys(entries: seq<Entry>, i: nat, form: map<string, Value>)
    requires i <= |entries| && FillFrom(entries, i, form).Form?
    ensures FillFrom(entries, i, form).fields.Keys == form.Keys + FieldKeys(entries, i)
    decreases |entries| - i
  {
    if i < |entries| {
      match entries[i]
      case Skip => FillKeys(entries, i + 1, form);
      case Field(k, v) => FillKeys(entries, i + 1, form[k := v]);
    }
  }

  /** No entry from index `i` on fails to decode. */
  predicate DecodesFrom(entries: seq<Entry>, i: nat)
    requires i <= |entries|
    decreases |entries| - i
  {
    i == |entries| || (!entries[i].Failure? && DecodesFrom(entries, i + 1))
  }

  /** The run gives a form exactly when no entry fails, and the URIError
      otherwise. */
  lemma {:induction false} FillFails(entries: seq<Entry>, i: nat, form: map<string, Value>)
    requires i <= |entries|
    ensures FillFrom(entries, i, form).Form? <==> DecodesFrom(entries, i)
    ensures FillFrom(entries, i, form).UriError? <==> !DecodesFrom(entries, i)
    decreases |entries| - i
  {
    if i < |entries| {
      match entries[i]
      case Skip => FillFails(entries, i + 1, form);
      case Field(k, v) => FillFails(entries, i + 1, form[k := v]);
      case Failure =>
    }
  }

  /** No entry from index `i` on assigns to `k`. */
  predicate NoFieldFrom(entries: seq<Entry>, i: nat, k: string)
    requires i <= |entries|
    decreases |entries| - i
  {
    i == |entries| || (!(entries[i].Field? && entries[i].key == k) && NoFieldFrom(entries, i + 1, k))
  }

  lemma {:induction false} FillKeeps(entries: seq<Entry>, i: nat, form: map<string, Value>, k: string)
    requires i <= |entries| && FillFrom(entries, i, form).Form?
    requires k in form && NoFieldFrom(entries, i, k)
    ensures var m := FillFrom(entries, i, form).fields; k in m && m[k] == form[k]
    decreases |entries| - i
  {
    if i < |entries| {
      match entries[i]
      case Skip => FillKeeps(entries, i + 1, form, k);
      case Field(k', v) => FillKeeps(entries, i + 1, form[k' := v], k);
    }
  }

  /** A key holds the value of the last entry that assigns to it. */
  lemma {:induction false} FillLastWrite(entries: seq<Entry>, i: nat, form: map<string, Value>, j: nat)
    requires i <= j < |entries| && FillFrom(entries, i, form).Form?
    requires entries[j].Field? && NoFieldFrom(entries, j + 1, entries[j].key)
    ensures var m := FillFrom(entries, i, form).fields;
      entries[j].key in m && m[entries[j].key] == entries[j].value
    decreases j - i
  {
    match entries[i]
    case Skip =>
      if i < j {
        FillLastWrite(entries, i + 1, form, j);
      }
    case Field(k, v) =>
      if i < j {
        FillLastWrite(entries, i + 1, form[k := v], j);
      } else {
        FillKeeps(entries, i + 1, form[k := v], k);
      }
  }

  // ---------------------------------------------------------------------
  // Properties of `parseFormData`

  /** The decoded non-empty raw keys of the chunks from index `i` on. */
  function DecodedKeys(chunks: seq<string>, i: nat, decode: Decoder): set<string>
    requires i <= |chunks|
    decreases |chunks| - i
  {
    if i == |chunks| then {}
    else
      var key := RawKey(chunks[i]);
      (if key != "" && decode(key).Some? then {decode(key).value} else {}) + DecodedKeys(chunks, i + 1, decode)
  }

  lemma {:induction false} FieldKeysOfChunks(chunks: seq<string>, i: nat, decode: Decoder)
    requires i <= |chunks| && DecodesFrom(Entries(chunks, decode), i)
    ensures FieldKeys(Entries(chunks, decode), i) == DecodedKeys(chunks, i, decode)
    decreases |chunks| - i
  {
    if i < |chunks| {
      FieldKeysOfChunks(chunks, i + 1, decode);
    }
  }

  /** The keys of a parsed form are exactly the decoded non-empty raw keys:
      a chunk with an empty raw key adds none. */
  lemma FormKeys(text: string, decode: Decoder)
    requires FormDataOf(text, decode).Form?
    ensures FormDataOf(text, decode).fields.Keys == DecodedKeys(Chunks(text), 0, decode)
  {
    var entries := Entries(Chunks(text), decode);
    FillKeys(entries, 0, map[]);
    FillFails(entries, 0, map[]);
    FieldKeysOfChunks(Chunks(text), 0, decode);
  }

  /** `parseFormData` throws the URIError exactly when some chunk with a
      non-empty raw key fails to decode, in its key or in its value. */
  lemma FormFails(text: string, decode: Decoder)
    ensures FormDataOf(text, decode).UriError? <==> !DecodesFrom(Entries(Chunks(text), decode), 0)
  {
    FillFails(Entries(Chunks(text), decode), 0, map[]);
  }

  /** A key holds the value of its last chunk: a later duplicate key
      overwrites an earlier one. */
  lemma FormLastWrite(text: string, decode: Decoder, j: nat)
    requires FormDataOf(text, decode).Form?
    requires j < |Chunks(text)|
    requires EntryOf(Chunks(text)[j], decode).Field?
    requires NoFieldFrom(Entries(Chunks(text), decode), j + 1, EntryOf(Chunks(text)[j], decode).key)
    ensures var e := EntryOf(Chunks(text)[j], decode);
      var m := FormDataOf(text, decode).fields;
      e.key in m && m[e.key] == e.value
  {
    FillLastWrite(Entries(Chunks(text), decode), 0, map[], j);
  }

  /** The first chunk is read on its own, and the rest of the text goes on
      from the form it leaves. */
  lemma FirstChunk(chunk: string, rest: string, decode: Decoder)
    requires '&' !in chunk
    ensures FormDataOf(chunk + "&" + rest, decode) ==
      match EntryOf(chunk, decode)
      case Skip => FormDataOf(rest, decode)
      case Field(k, v) => FillFrom(Entries(Chunks(rest), decode), 0, map[k := v])
      case Failure => UriError
  {
    assert chunk + "&" + rest == chunk + ['&'] + rest;
    SplitFirst(chunk, '&', rest);
    EntriesCons(chunk, Chunks(rest), decode);
    FillCons(EntryOf(chunk, decode), Entries(Chunks(rest), decode), map[]);
  }

  lemma EntriesCons(chunk: string, chunks: seq<string>, decode: Decoder)
    ensures Entries([chunk] + chunks, decode) == [EntryOf(chunk, decode)] + Entries(chunks, decode)
  {
    var a, b := Entries([chunk] + chunks, decode), [EntryOf(chunk, decode)] + Entries(chunks, decode);
    assert |a| == |b|;
    forall i | 0 <= i < |a|
      ensures a[i] == b[i]
    {
      if i == 0 {
        assert a[0] == EntryOf(chunk, decode);
      } else {
        assert ([chunk] + chunks)[i] == chunks[i - 1];
        assert b[i] == Entries(chunks, decode)[i - 1];
      }
    }
  }

  /** A run over one entry followed by others. */
  lemma FillCons(entry: Entry, entries: seq<Entry>, form: map<string, Value>)
    ensures FillFrom([entry] + entries, 0, form) ==
      match entry
      case Skip => FillFrom(entries, 0, form)
      case Field(k, v) => FillFrom(entries, 0, form[k := v])
      case Failure => UriError
  {
    var all := [entry] + entries;
    assert all[1..] == entries;
    match entry
    case Skip => FillShift(all, 0, form);
    case Field(k, v) => FillShift(all, 0, form[k := v]);
    case Failure =>
  }

  /** A leading chunk with an empty key is omitted: `=value&rest` parses as
      `rest`. */
  lemma OmitEmptyKey(value: string, rest: string, decode: Decoder)
    requires '&' !in value
    ensures FormDataOf("=" + value + "&" + rest, decode) == FormDataOf(rest, decode)
  {
    EmptyKey(value, decode);
    FirstChunk("=" + value, rest, decode);
  }
}
