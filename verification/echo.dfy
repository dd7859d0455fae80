/** `CaramelConfigEcho`: the three echo flags and the comma-separated
    "waves" option that switches them on. Only the flag logic is modelled;
    the echoed text goes to a logger. */
module ConfigEcho {
  import opened Wrappers
  import opened Text
  import opened CaramelAide

  const WaveSummary := "summary"
  const WaveTrack := "track"
  const WaveContent := "content"

  datatype Echo = Echo(waves: Option<string>, masking: bool,
                       summaryEnabled: bool, trackEnabled: bool, contentEnabled: bool)

  /** A freshly constructed echo: every flag is off. */
  function NewEcho(): (r: Echo)
    ensures !IsEchoEnabled(r)
    ensures r.waves == None
  {
    Echo(None, false, false, false, false)
  }

  predicate IsEchoEnabled(e: Echo) {
    e.summaryEnabled || e.trackEnabled || e.contentEnabled
  }

  /** Summary output is also on whenever track output is. */
  predicate IsSummaryEnabled(e: Echo) {
    e.summaryEnabled || e.trackEnabled
  }

  predicate IsTrackEnabled(e: Echo) {
    e.trackEnabled
  }

  predicate IsContentEnabled(e: Echo) {
    e.contentEnabled
  }

  /** Echo is on exactly when one of the three reported levels is. */
  lemma EchoEnabledIffAnyLevel(e: Echo)
    ensures IsEchoEnabled(e) <==> IsSummaryEnabled(e) || IsTrackEnabled(e) || IsContentEnabled(e)
    ensures IsTrackEnabled(e) ==> IsSummaryEnabled(e)
  {
  }

  /** A section names `wave` when the two agree, ignoring case, after
      trimming. */
  predicate Names(section: string, wave: string) {
    EqualsIgnoreCaseAfterTrim(Some(section), Some(wave))
  }

  /** Naming is equality of the trimmed, lower-cased texts. */
  lemma NamesIgnoresCaseAndBlanks(section: string, wave: string)
    ensures Names(section, wave) <==> Lower(Trim(section)) == Lower(Trim(wave))
  {
    EqualsIgnoreCaseIsLowerEquality(Trim(section), Trim(wave));
  }

  predicate SomeNames(sections: seq<string>, wave: string) {
    exists i :: 0 <= i < |sections| && Names(sections[i], wave)
  }

  /** The loop of `resolveWaves`: each section may switch flags on, and
      none is ever switched off. */
  function ApplySections(e: Echo, sections: seq<string>): (r: Echo)
    ensures r.waves == e.waves && r.masking == e.masking
    ensures r.summaryEnabled <==> e.summaryEnabled || SomeNames(sections, WaveSummary)
    ensures r.trackEnabled <==> e.trackEnabled || SomeNames(sections, WaveTrack)
    ensures r.contentEnabled <==> e.contentEnabled || SomeNames(sections, WaveContent)
    decreases |sections|
  {
    if sections == [] then e
    else
      var s := sections[0];
      var next := e.(summaryEnabled := e.summaryEnabled || Names(s, WaveSummary),
                     trackEnabled := e.trackEnabled || Names(s, WaveTrack),
                     contentEnabled := e.contentEnabled || Names(s, WaveContent));
      var r := ApplySections(next, sections[1..]);
      SomeNamesCons(sections, WaveSummary);
      SomeNamesCons(sections, WaveTrack);
      SomeNamesCons(sections, WaveContent);
      r
  }

  lemma SomeNamesCons(sections: seq<string>, wave: string)
    requires sections != []
    ensures SomeNames(sections, wave) <==> Names(sections[0], wave) || SomeNames(sections[1..], wave)
  {
    if SomeNames(sections, wave) && !Names(sections[0], wave) {
      var i :| 0 <= i < |sections| && Names(sections[i], wave);
      assert Names(sections[1..][i - 1], wave);
    }
    if SomeNames(sections[1..], wave) {
      var i :| 0 <= i < |sections[1..]| && Names(sections[1..][i], wave);
      assert Names(sections[i + 1], wave);
    }
  }

  /** `setWaves`: store the option and resolve it. Blank waves change no
      flag; otherwise the comma-separated sections are applied in turn. */
  function SetWaves(e: Echo, waves: Option<string>): (r: Echo)
    ensures r.waves == waves && r.masking == e.masking
    ensures IsBlank(waves) ==> r == e.(waves := waves)
    ensures e.summaryEnabled ==> r.summaryEnabled
    ensures e.trackEnabled ==> r.trackEnabled
    ensures e.contentEnabled ==> r.contentEnabled
    ensures !IsBlank(waves) ==>
      (r.summaryEnabled <==> e.summaryEnabled || SomeNames(Split(waves.value, ','), WaveSummary))
    ensures !IsBlank(waves) ==>
      (r.trackEnabled <==> e.trackEnabled || SomeNames(Split(waves.value, ','), WaveTrack))
    ensures !IsBlank(waves) ==>
      (r.contentEnabled <==> e.contentEnabled || SomeNames(Split(waves.value, ','), WaveContent))
  {
    var stored := e.(waves := waves);
    if IsBlank(waves) then stored
    else ApplySections(stored, Split(waves.value, ','))
  }

  lemma SomeNamesSnoc(sections: seq<string>, section: string, wave: string)
    requires !Names(section, wave)
    ensures SomeNames(sections + [section], wave) <==> SomeNames(sections, wave)
  {
    var all := sections + [section];
    if SomeNames(all, wave) {
      var i :| 0 <= i < |all| && Names(all[i], wave);
      assert i < |sections|;
      assert Names(sections[i], wave);
    }
    if SomeNames(sections, wave) {
      var i :| 0 <= i < |sections| && Names(sections[i], wave);
      assert Names(all[i], wave);
    }
  }

  /** A section naming no wave is ignored. */
  lemma UnknownSectionIgnored(e: Echo, sections: seq<string>, section: string)
    requires !Names(section, WaveSummary) && !Names(section, WaveTrack) && !Names(section, WaveContent)
    ensures ApplySections(e, sections + [section]) == ApplySections(e, sections)
  {
    SomeNamesSnoc(sections, section, WaveSummary);
    SomeNamesSnoc(sections, section, WaveTrack);
    SomeNamesSnoc(sections, section, WaveContent);
  }

  /** Applying the same sections twice switches on nothing more. */
  lemma ApplySectionsIdempotent(e: Echo, sections: seq<string>)
    ensures ApplySections(ApplySections(e, sections), sections) == ApplySections(e, sections)
  {
  }
}
