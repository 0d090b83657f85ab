/**
 * `speakableCombo` of src/lib/speech.js: a combo such as "1-2-3" is spoken as
 * "1 2 3" (every '-' replaced by a space). The speech output itself is not
 * part of this module.
 */
module Speech {

  /** `String(combo).replaceAll("-", " ")`. */
  function SpeakableCombo(combo: string): (r: string)
    ensures |r| == |combo|
    ensures forall i :: 0 <= i < |combo| && combo[i] != '-' ==> r[i] == combo[i]
    ensures forall i :: 0 <= i < |combo| && combo[i] == '-' ==> r[i] == ' '
    ensures '-' !in r
  {
    if combo == [] then []
    else [if combo[0] == '-' then ' ' else combo[0]] + SpeakableCombo(combo[1..])
  }

  /** The reverse rewrite: every space back to '-'. */
  function RestoreHyphens(spoken: string): (r: string)
    ensures |r| == |spoken|
    ensures forall i :: 0 <= i < |spoken| ==> r[i] == if spoken[i] == ' ' then '-' else spoken[i]
  {
    if spoken == [] then []
    else [if spoken[0] == ' ' then '-' else spoken[0]] + RestoreHyphens(spoken[1..])
  }

  /** A combo without spaces (every normalised combo) is restored from its spoken form. */
  lemma SpeakableComboRoundTrip(combo: string)
    requires ' ' !in combo
    ensures RestoreHyphens(SpeakableCombo(combo)) == combo
  {
    var r := RestoreHyphens(SpeakableCombo(combo));
    forall i | 0 <= i < |combo| ensures r[i] == combo[i] {
      assert combo[i] != ' ' by { assert combo[i] in combo; }
    }
  }
}
