/** The two in-place clean-ups of a parsed annotation dict: process_dzoom
    splits the zoom entry into the ratio and its delta, process_altitude
    turns the altitude entry into the relative and absolute altitudes. */
module Normalize {
  import opened Common
  import opened PyStr
  import opened Annotation

  const DZOOM: string := "dzoom_ratio"
  const DZOOM_DELTA: string := "dzoom_ratio_delta"
  const REL_ALT: string := "rel_alt"
  const ABS_ALT: string := "abs_alt"

  /** What the altitude entry holds between the two altitudes. */
  const ALT_SEP: string := " abs_alt: "

  /** What the second part of the zoom entry carries before the delta. */
  const DELTA_TAG: string := "delta:"

  /** `d` and `e` agree on every key except the ones in `changed`, and `e`
      has no key outside those of `d` and `changed`. */
  ghost predicate OnlyChanged(d: Dict, e: Dict, changed: set<string>) {
    && e.Keys <= d.Keys + changed
    && forall k :: k in d && k !in changed ==> k in e && e[k] == d[k]
  }

  /** Two clean-ups in a row change only what either of them changes.
      OnlyChanged is the frame condition each clean-up states of one call;
      this lemma composes two of them, as large_dataframe runs
      process_dzoom and then process_altitude. */
  lemma OnlyChangedThen(d: Dict, e: Dict, f: Dict, first: set<string>, second: set<string>)
    requires OnlyChanged(d, e, first) && OnlyChanged(e, f, second)
    ensures OnlyChanged(d, f, first + second)
  {
  }

  // ------------------------------------------------------------- dzoom

  /** The dict process_dzoom leaves behind, or the exception it raises: the
      zoom entry is split at commas, the text before the first comma stays as
      the ratio, and the second part, with every `delta:` deleted, becomes the
      delta (None when there is no comma). */
  function Dzoom(d: Dict): (r: Result<Dict>)
    ensures DZOOM !in d ==> r == Err(KeyError(DZOOM))
    ensures DZOOM in d && !d[DZOOM].Str? ==> r == Err(AttributeError)
    ensures r.Ok? <==> DZOOM in d && d[DZOOM].Str?
    ensures r.Ok? ==> OnlyChanged(d, r.value, {DZOOM, DZOOM_DELTA})
    ensures r.Ok? ==> r.value.Keys == d.Keys + {DZOOM_DELTA}
    ensures r.Ok? ==> r.value[DZOOM].Str? && ',' !in r.value[DZOOM].s
    ensures r.Ok? ==> (r.value[DZOOM_DELTA].Null? <==> ',' !in d[DZOOM].s)
    ensures r.Ok? ==> r.value[DZOOM_DELTA].Null? || r.value[DZOOM_DELTA].Str?
    ensures r.Ok? ==> r.value[DZOOM] == Str(BeforeFirst(d[DZOOM].s, ","))
    ensures r.Ok? && ',' in d[DZOOM].s ==>
      r.value[DZOOM_DELTA] == Str(ReplaceAll(BeforeFirst(AfterFirst(d[DZOOM].s, ","), ","), DELTA_TAG, []))
  {
    if DZOOM !in d then Err(KeyError(DZOOM))
    else if !d[DZOOM].Str? then Err(AttributeError)
    else
      var parts := Split(d[DZOOM].s, ",");
      SplitPiecesFree(d[DZOOM].s, ",");
      FindOneChar(parts[0], ',');
      FindOneChar(d[DZOOM].s, ',');
      SplitFirstTwo(d[DZOOM].s, ",");
      var delta := if |parts| > 1 then Str(ReplaceAll(parts[1], DELTA_TAG, [])) else Null;
      Ok(d[DZOOM := Str(parts[0])][DZOOM_DELTA := delta])
  }

  /** Splitting undoes writing: a ratio and a delta written as
      `ratio,delta:delta` come back as they were. */
  lemma DzoomRoundTrip(d: Dict, ratio: string, delta: string)
    requires ',' !in ratio && ',' !in delta && Find(delta, DELTA_TAG).None?
    ensures Dzoom(d[DZOOM := Str(ratio + "," + (DELTA_TAG + delta))])
      == Ok(d[DZOOM := Str(ratio)][DZOOM_DELTA := Str(delta)])
  {
    var t := DELTA_TAG + delta;
    assert Split(ratio + "," + t, ",") == [ratio, t] by {
      assert ',' !in t by {
        assert forall i :: 0 <= i < |DELTA_TAG| ==> DELTA_TAG[i] != ',';
      }
      FindOneChar(t, ',');
      SplitAtSep(ratio, ",", t);
    }
    assert ReplaceAll(t, DELTA_TAG, []) == delta by {
      DeleteLeading(DELTA_TAG, delta);
    }
    DzoomOfPieces(d, ratio + "," + t, ratio, t, delta);
  }

  /** A zoom entry that splits into a ratio and a tagged delta. */
  lemma DzoomOfPieces(d: Dict, s: string, ratio: string, t: string, delta: string)
    requires Split(s, ",") == [ratio, t] && ReplaceAll(t, DELTA_TAG, []) == delta
    ensures Dzoom(d[DZOOM := Str(s)]) == Ok(d[DZOOM := Str(ratio)][DZOOM_DELTA := Str(delta)])
  {
    var d' := d[DZOOM := Str(s)];
    assert d'[DZOOM := Str(ratio)] == d[DZOOM := Str(ratio)];
  }

  /** A ratio without a comma stays as it is, with no delta. */
  lemma DzoomWithoutDelta(d: Dict, ratio: string)
    requires ',' !in ratio
    ensures Dzoom(d[DZOOM := Str(ratio)]) == Ok(d[DZOOM := Str(ratio)][DZOOM_DELTA := Null])
  {
    FindOneChar(ratio, ',');
    assert Split(ratio, ",") == [ratio];
    assert d[DZOOM := Str(ratio)][DZOOM := Str(ratio)] == d[DZOOM := Str(ratio)];
  }

  /** A zoom entry that is a plain numeral is turned into a number by
      parse_raw_metadata, so process_dzoom then raises AttributeError. */
  lemma DzoomOfNumeral(d: Dict, v: string, toFloat: FloatParser)
    requires IsNumeral(v)
    ensures Classify(v, toFloat).Ok?
    ensures Dzoom(d[DZOOM := Classify(v, toFloat).value]) == Err(AttributeError)
  {
  }

  // ---------------------------------------------------------- altitude

  /** The dict process_altitude leaves behind and the exception it raises,
      if any. The altitude entry is split at ` abs_alt: `; the relative
      altitude is stored before the absolute one is read, so a missing or
      unreadable absolute altitude leaves the relative one already
      converted. */
  function Altitude(d: Dict, toFloat: FloatParser): (r: (Dict, Option<Error>))
    ensures REL_ALT !in d ==> r == (d, Some(KeyError(REL_ALT)))
    ensures REL_ALT in d && !d[REL_ALT].Str? ==> r == (d, Some(AttributeError))
    ensures OnlyChanged(d, r.0, {REL_ALT, ABS_ALT})
    ensures r.1.None? ==> r.0.Keys == d.Keys + {ABS_ALT}
    ensures r.1.None? ==> r.0[REL_ALT].Float? && r.0[ABS_ALT].Float?
    ensures r.1.Some? ==> r.1.value in {KeyError(REL_ALT), AttributeError, ValueError, IndexError}
    ensures r.1 == Some(IndexError) ==> REL_ALT in d && d[REL_ALT].Str? && Find(d[REL_ALT].s, ALT_SEP).None?
    ensures r.0 != d ==> REL_ALT in r.0 && r.0[REL_ALT].Float?
    ensures REL_ALT in d && d[REL_ALT].Str? ==>
      var s := d[REL_ALT].s;
      var rel := toFloat(BeforeFirst(s, ALT_SEP));
      var abs := toFloat(BeforeFirst(AfterFirst(s, ALT_SEP), ALT_SEP));
      && (rel.None? ==> r == (d, Some(ValueError)))
      && (rel.Some? && Find(s, ALT_SEP).None? ==> r == (d[REL_ALT := Float(rel.value)], Some(IndexError)))
      && (rel.Some? && Find(s, ALT_SEP).Some? && abs.None? ==>
            r == (d[REL_ALT := Float(rel.value)], Some(ValueError)))
      && (rel.Some? && Find(s, ALT_SEP).Some? && abs.Some? ==>
            r == (d[REL_ALT := Float(rel.value)][ABS_ALT := Float(abs.value)], None))
  {
    if REL_ALT !in d then (d, Some(KeyError(REL_ALT)))
    else if !d[REL_ALT].Str? then (d, Some(AttributeError))
    else
      var parts := Split(d[REL_ALT].s, ALT_SEP);
      SplitFirstTwo(d[REL_ALT].s, ALT_SEP);
      match toFloat(parts[0])
      case None => (d, Some(ValueError))
      case Some(rel) =>
        var d1 := d[REL_ALT := Float(rel)];
        if |parts| < 2 then (d1, Some(IndexError))
        else match toFloat(parts[1])
          case None => (d1, Some(ValueError))
          case Some(abs) => (d1[ABS_ALT := Float(abs)], None)
  }

  /** The altitude entry written as `rel abs_alt: abs` for two texts float()
      accepts becomes the two floats it reads from them. */
  lemma AltitudeRoundTrip(d: Dict, rel: string, abs: string, toFloat: FloatParser)
    requires ' ' !in rel && ' ' !in abs
    requires toFloat(rel).Some? && toFloat(abs).Some?
    ensures Altitude(d[REL_ALT := Str(rel + ALT_SEP + abs)], toFloat)
      == (d[REL_ALT := Float(toFloat(rel).value)][ABS_ALT := Float(toFloat(abs).value)], None)
  {
    FindMissingLead(abs, ALT_SEP);
    SplitAtSep(rel, ALT_SEP, abs);
    var d' := d[REL_ALT := Str(rel + ALT_SEP + abs)];
    assert Split(d'[REL_ALT].s, ALT_SEP) == [rel, abs];
    assert d'[REL_ALT := Float(toFloat(rel).value)] == d[REL_ALT := Float(toFloat(rel).value)];
  }

  /** With a float() that reads plain numerals exactly, the altitudes of a
      well-formed entry are the numbers the two numerals denote. */
  lemma AltitudeOfNumerals(d: Dict, rel: string, abs: string, toFloat: FloatParser)
    requires DecimalSound(toFloat)
    requires IsNumeral(rel) && IsNumeral(abs)
    ensures Altitude(d[REL_ALT := Str(rel + ALT_SEP + abs)], toFloat)
      == (d[REL_ALT := Float(NumeralValue(rel))][ABS_ALT := Float(NumeralValue(abs))], None)
  {
    NumeralChars(rel);
    NumeralChars(abs);
    AltitudeRoundTrip(d, rel, abs, toFloat);
  }

  /** An entry without ` abs_alt: ` whose text float() accepts gets its
      relative altitude converted and then raises IndexError. */
  lemma AltitudeWithoutAbsolute(d: Dict, rel: string, toFloat: FloatParser)
    requires Find(rel, ALT_SEP).None? && toFloat(rel).Some?
    ensures Altitude(d[REL_ALT := Str(rel)], toFloat)
      == (d[REL_ALT := Float(toFloat(rel).value)], Some(IndexError))
  {
    assert Split(rel, ALT_SEP) == [rel];
    assert d[REL_ALT := Str(rel)][REL_ALT := Float(toFloat(rel).value)] == d[REL_ALT := Float(toFloat(rel).value)];
  }

  // ---------------------------------------------------------- the dict

  /** The dict process_dzoom and process_altitude update in place. */
  class Metadata {
    var entries: Dict

    constructor(d: Dict)
      ensures entries == d
    {
      entries := d;
    }

    /** process_dzoom: on success the entries are those of Dzoom; when it
        raises nothing has been stored yet. */
    method ProcessDzoom() returns (err: Option<Error>)
      modifies this
      ensures Dzoom(old(entries)).Ok? ==> err.None? && entries == Dzoom(old(entries)).value
      ensures Dzoom(old(entries)).Err? ==> err == Some(Dzoom(old(entries)).error) && entries == old(entries)
    {
      if DZOOM !in entries {
        return Some(KeyError(DZOOM));
      }
      var zoom := entries[DZOOM];
      if !zoom.Str? {
        return Some(AttributeError);
      }
      var zoomRatioParts := Split(zoom.s, ",");
      entries := entries[DZOOM := Str(zoomRatioParts[0])];
      if |zoomRatioParts| > 1 {
        entries := entries[DZOOM_DELTA := Str(ReplaceAll(zoomRatioParts[1], DELTA_TAG, []))];
      } else {
        entries := entries[DZOOM_DELTA := Null];
      }
      return None;
    }

    /** process_altitude: the entries and the exception are those of
        Altitude, including the relative altitude stored before a failure
        on the absolute one. */
    method ProcessAltitude(toFloat: FloatParser) returns (err: Option<Error>)
      modifies this
      ensures (entries, err) == Altitude(old(entries), toFloat)
    {
      if REL_ALT !in entries {
        return Some(KeyError(REL_ALT));
      }
      var alt := entries[REL_ALT];
      if !alt.Str? {
        return Some(AttributeError);
      }
      var altParts := Split(alt.s, ALT_SEP);
      var rel := toFloat(altParts[0]);
      if rel.None? {
        return Some(ValueError);
      }
      entries := entries[REL_ALT := Float(rel.value)];
      if |altParts| < 2 {
        return Some(IndexError);
      }
      var abs := toFloat(altParts[1]);
      if abs.None? {
        return Some(ValueError);
      }
      entries := entries[ABS_ALT := Float(abs.value)];
      return None;
    }
  }
}
