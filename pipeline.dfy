/** The step of `process_csv_file` that applies the detector to one decoded
    record: when the record is PII, a copy of it gets the masked value of
    every field the detector reported; otherwise the record goes out as it
    came in. */
module Pipeline {
  import opened Text
  import opened Patterns
  import opened Masking
  import opened RecordMaps
  import opened Detector

  /** `data` with the value of every field among `keys` that has a mask
      replaced by that mask. */
  function OverwriteOn(data: map<string, string>, masks: map<string, string>, keys: set<string>): map<string, string>
  {
    map f | f in data :: if f in keys && f in masks then masks[f] else data[f]
  }

  /** `data` with every field that has a mask overwritten by it. */
  function Overwrite(data: map<string, string>, masks: map<string, string>): map<string, string>
  {
    OverwriteOn(data, masks, masks.Keys)
  }

  /** Overwriting one more masked field changes that field only, and only
      when the record has it. */
  lemma OverwriteOnStep(data: map<string, string>, masks: map<string, string>, keys: set<string>, f: string)
    requires f in masks && f !in keys
    ensures OverwriteOn(data, masks, keys + {f}) ==
              if f in data then OverwriteOn(data, masks, keys)[f := masks[f]]
              else OverwriteOn(data, masks, keys)
  {
  }

  lemma OverwriteOnNone(data: map<string, string>, masks: map<string, string>)
    ensures OverwriteOn(data, masks, {}) == data
  {
  }

  /** The redaction loop: copy the record, then write each reported mask
      into the copy when the copy has that field. */
  method RedactRecord(data: map<string, string>, piiFields: map<string, string>)
    returns (redacted: map<string, string>)
    ensures redacted == Overwrite(data, piiFields)
  {
    redacted := data;
    var todo := piiFields.Keys;
    ghost var done: set<string> := {};
    OverwriteOnNone(data, piiFields);
    while todo != {}
      invariant done == piiFields.Keys - todo && todo <= piiFields.Keys
      invariant redacted == OverwriteOn(data, piiFields, done)
      decreases todo
    {
      var field :| field in todo;
      var maskedValue := piiFields[field];
      VisitStep(piiFields.Keys, todo, done, field);
      OverwriteOnStep(data, piiFields, done, field);
      if field in redacted {
        redacted := redacted[field := maskedValue];
      }
      todo := todo - {field};
      done := done + {field};
    }
    assert done == piiFields.Keys;
  }

  /** The redacted record has the same fields as the input; a field with a
      mask carries the mask and every other field keeps its value. */
  lemma OverwriteFields(data: map<string, string>, masks: map<string, string>)
    ensures Overwrite(data, masks).Keys == data.Keys
    ensures forall f :: f in data && f in masks ==> Overwrite(data, masks)[f] == masks[f]
    ensures forall f :: f in data && f !in masks ==> Overwrite(data, masks)[f] == data[f]
  {
  }

  lemma OverwriteSingle(f: string, v: string, m: string)
    ensures Overwrite(map[f := v], map[f := m]) == map[f := m]
  {
  }

  /** What the pipeline emits for one decoded record: the PII flag and the
      record it writes out. */
  function Process(data: map<string, string>): (bool, map<string, string>) {
    var (hasPii, piiFields) := Detect(data);
    if hasPii then (true, Overwrite(data, piiFields)) else (false, data)
  }

  /** Lines 254-266 of the CSV loop, without the JSON encoding and the write. */
  method ProcessRecord(data: map<string, string>) returns (isPii: bool, output: map<string, string>)
    ensures (isPii, output) == Process(data)
  {
    var hasPii, piiFields := DetectPiiInRecord(data);
    if hasPii {
      output := RedactRecord(data, piiFields);
    } else {
      output := data;
    }
    isPii := hasPii;
  }

  /** The output record has exactly the input's fields; each field the
      detector reported carries its mask and every other field is unchanged;
      a record that is not PII comes out as it went in. */
  lemma ProcessFields(data: map<string, string>, f: string)
    ensures Process(data).1.Keys == data.Keys
    ensures f in data ==>
              Process(data).1[f] == if f in Detect(data).1 then Detect(data).1[f] else data[f]
    ensures !Process(data).0 ==> Process(data).1 == data
  {
    var (hasPii, piiFields) := Detect(data);
    OverwriteFields(data, piiFields);
    DetectFlagMeansMasks(data);
  }

  /** A record is reported PII exactly when the detector masks some field. */
  lemma ProcessFlag(data: map<string, string>)
    ensures Process(data).0 <==> Detect(data).1 != map[]
  {
    DetectFlagMeansMasks(data);
  }

  /** A standalone field makes the record PII and comes out with its
      mask_value, whatever else the record holds. */
  lemma ProcessStandaloneMasked(data: map<string, string>, f: string)
    requires f in data && IsStandalonePii(f, data[f])
    ensures Process(data).0 && Process(data).1[f] == MaskValue(f, data[f])
  {
    DetectStandaloneWins(data, f);
    ProcessFields(data, f);
  }

  /** A field that is neither standalone PII nor taken by the second pass
      is never changed. */
  lemma ProcessKeepsOthers(data: map<string, string>, f: string)
    requires f in data && !IsStandalonePii(f, data[f]) && !SecondPassQualifies(f, data[f])
    ensures Process(data).1[f] == data[f]
  {
    DetectMaskedFields(data, f);
    ProcessFields(data, f);
  }

  /** Below two combinatorial entries the output is the record with its
      standalone fields masked, flagged when there is one. */
  lemma ProcessBelowThreshold(data: map<string, string>)
    requires CombinatorialCount(data) < 2
    ensures Process(data) ==
              if AnyPicked(data, data.Keys, IsStandalonePii) then (true, Overwrite(data, StandaloneMasks(data)))
              else (false, data)
  {
    DetectBelowThreshold(data);
  }

  /** Overwriting the second field of a two-field record. */
  lemma OverwriteSecond(f: string, v: string, g: string, w: string, m: string)
    requires f != g
    ensures Overwrite(map[f := v, g := w], map[g := m]) == map[f := v, g := m]
  {
    OverwriteFields(map[f := v, g := w], map[g := m]);
  }

  /** A one-field record is PII exactly when its field is standalone PII, and
      then that field comes out masked by mask_value. */
  lemma ProcessSingleField(f: string, v: string)
    ensures Process(map[f := v]) ==
              if IsStandalonePii(f, v) then (true, map[f := MaskValue(f, v)]) else (false, map[f := v])
  {
    SingleFieldRecord(f, v);
    OverwriteSingle(f, v, MaskValue(f, v));
  }

  /** A field can count toward a combinatorial match and still come out as
      it went in: a first_name that already has the masked shape (a first
      character, then only 'X's, such as "AX") next to a device_id of five
      or more characters makes the record PII, yet mask_value returns the
      first_name unchanged. */
  lemma ContributingFieldKept(data: map<string, string>)
    requires "first_name" in data && "device_id" in data
    requires var w := data["first_name"];
      IsToken(w) && |w| >= 2 && forall k :: 1 <= k < |w| ==> w[k] == 'X'
    requires |Strip(data["device_id"])| >= 5
    ensures ComboTag("first_name", data["first_name"]) == Some("name_parts")
    ensures Process(data).0 && Process(data).1["first_name"] == data["first_name"]
  {
    var w := data["first_name"];
    StripFixed(w);
    NamePartsTag("first_name", w);
    DeviceTag("device_id", data["device_id"]);
    OwnAndOnce(data, ComboTag, "name_parts", "device_id", "first_name");
    DetectMaskedFields(data, "first_name");
    MaskedWordKept("first_name", w);
    ProcessFields(data, "first_name");
  }
}
