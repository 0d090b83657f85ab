/**
 * src/components/ComboLibrary.jsx: the combo normaliser/validator
 * `normalizeAndValidateCombo` and the library's `addCombo`/`removeCombo` edits.
 *
 * A combo is typed as strike numbers 1..6 separated by spaces or hyphens; an
 * accepted combo is stored in the canonical form "1-2-3".
 */
module ComboLibrary {
  import Speech

  /** The characters JavaScript's `\s` matches and `trim` strips (white space and
      line terminators). */
  predicate IsSpace(c: char) {
    || c == '\t' || c == '\n' || c == '\U{000B}' || c == '\U{000C}' || c == '\r'
    || c == ' ' || c == '\U{00A0}' || c == '\U{1680}' || ('\U{2000}' <= c <= '\U{200A}')
    || c == '\U{2028}' || c == '\U{2029}' || c == '\U{202F}' || c == '\U{205F}'
    || c == '\U{3000}' || c == '\U{FEFF}'
  }

  /** A strike number, `[1-6]`. */
  predicate IsStrike(c: char) {
    '1' <= c <= '6'
  }

  /** The character class `[1-6\s-]`. */
  predicate IsAllowed(c: char) {
    IsStrike(c) || IsSpace(c) || c == '-'
  }

  predicate AllAllowed(s: string) {
    forall i :: 0 <= i < |s| ==> IsAllowed(s[i])
  }

  predicate StrikesAndHyphens(s: string) {
    forall i :: 0 <= i < |s| ==> IsStrike(s[i]) || s[i] == '-'
  }

  predicate NoSpaces(s: string) {
    forall i :: 0 <= i < |s| ==> !IsSpace(s[i])
  }

  predicate NoDoubleHyphen(s: string) {
    forall i :: 0 <= i < |s| - 1 ==> !(s[i] == '-' && s[i + 1] == '-')
  }

  /** `/[1-6]/.test(s)`. */
  predicate HasStrike(s: string) {
    exists i :: 0 <= i < |s| && IsStrike(s[i])
  }

  /** The canonical stored form: strikes joined by single hyphens. */
  predicate IsCanonical(v: string) {
    && v != []
    && StrikesAndHyphens(v)
    && NoDoubleHyphen(v)
    && v[0] != '-'
    && v[|v| - 1] != '-'
  }

  /** The strike numbers of a text, in order. */
  function Strikes(s: string): string {
    if s == [] then [] else (if IsStrike(s[0]) then [s[0]] else []) + Strikes(s[1..])
  }

  lemma {:induction false} StrikesAppend(a: string, b: string)
    ensures Strikes(a + b) == Strikes(a) + Strikes(b)
    decreases |a|
  {
    if a != [] {
      assert (a + b)[1..] == a[1..] + b;
      StrikesAppend(a[1..], b);
    } else {
      assert a + b == b;
    }
  }

  lemma {:induction false} HasStrikeIff(s: string)
    ensures HasStrike(s) <==> Strikes(s) != []
    decreases |s|
  {
    if s != [] {
      HasStrikeIff(s[1..]);
      if HasStrike(s[1..]) {
        var i :| 0 <= i < |s[1..]| && IsStrike(s[1..][i]);
        assert IsStrike(s[i + 1]);
      }
      if HasStrike(s) && !IsStrike(s[0]) {
        var i :| 0 <= i < |s| && IsStrike(s[i]);
        assert IsStrike(s[1..][i - 1]);
      }
    }
  }

  // ---------------------------------------------------------------------------
  // The steps of the normaliser

  /** `trimStart`: drops leading white space (also used for the `\s+` run after a space). */
  function TrimStart(s: string): (r: string)
    ensures |r| <= |s| && r == s[|s| - |r|..]
    ensures r != [] ==> !IsSpace(r[0])
    ensures s != [] && !IsSpace(s[0]) ==> r == s
    decreases |s|
  {
    if s != [] && IsSpace(s[0]) then TrimStart(s[1..]) else s
  }

  /** `trimEnd`: drops trailing white space. */
  function TrimEnd(s: string): (r: string)
    ensures |r| <= |s| && r == s[..|r|]
    ensures r != [] ==> !IsSpace(r[|r| - 1])
    ensures s != [] && !IsSpace(s[|s| - 1]) ==> r == s
    decreases |s|
  {
    if s != [] && IsSpace(s[|s| - 1]) then TrimEnd(s[..|s| - 1]) else s
  }

  /** `String.prototype.trim`. */
  function Trim(s: string): (r: string)
    ensures r != [] ==> !IsSpace(r[0]) && !IsSpace(r[|r| - 1])
  {
    TrimEnd(TrimStart(s))
  }

  predicate AllSpaces(s: string) {
    forall k :: 0 <= k < |s| ==> IsSpace(s[k])
  }

  lemma AllSpacesCons(c: char, t: string)
    requires IsSpace(c) && AllSpaces(t)
    ensures AllSpaces([c] + t)
  {
    forall k | 1 <= k < |t| + 1 ensures IsSpace(([c] + t)[k]) {
      assert ([c] + t)[k] == t[k - 1];
    }
  }

  lemma AllSpacesSnoc(t: string, c: char)
    requires AllSpaces(t) && IsSpace(c)
    ensures AllSpaces(t + [c])
  {
    forall k | 0 <= k < |t| ensures IsSpace((t + [c])[k]) {
      assert (t + [c])[k] == t[k];
    }
  }

  /** `trimStart` drops white space only: the text is the dropped run followed by the result. */
  lemma {:induction false} TrimStartDropsSpaces(s: string)
    ensures AllSpaces(s[..|s| - |TrimStart(s)|])
    decreases |s|
  {
    if s != [] && IsSpace(s[0]) {
      var n := |s| - |TrimStart(s)|;
      TrimStartDropsSpaces(s[1..]);
      assert s[..n] == [s[0]] + s[1..][..n - 1];
      AllSpacesCons(s[0], s[1..][..n - 1]);
    }
  }

  /** `trimEnd` drops white space only: the text is the result followed by the dropped run. */
  lemma {:induction false} TrimEndDropsSpaces(s: string)
    ensures AllSpaces(s[|TrimEnd(s)|..])
    decreases |s|
  {
    if s != [] && IsSpace(s[|s| - 1]) {
      var n := |TrimEnd(s)|;
      TrimEndDropsSpaces(s[..|s| - 1]);
      assert s[n..] == s[..|s| - 1][n..] + [s[|s| - 1]];
      AllSpacesSnoc(s[..|s| - 1][n..], s[|s| - 1]);
    }
  }

  lemma {:induction false} TrimStartStrikes(s: string)
    ensures Strikes(TrimStart(s)) == Strikes(s)
    decreases |s|
  {
    if s != [] && IsSpace(s[0]) {
      TrimStartStrikes(s[1..]);
      assert Strikes(s) == [] + Strikes(s[1..]);
    }
  }

  lemma {:induction false} TrimEndStrikes(s: string)
    ensures Strikes(TrimEnd(s)) == Strikes(s)
    decreases |s|
  {
    if s != [] && IsSpace(s[|s| - 1]) {
      var t := s[..|s| - 1];
      TrimEndStrikes(t);
      assert s == t + [s[|s| - 1]];
      StrikesAppend(t, [s[|s| - 1]]);
      assert Strikes([s[|s| - 1]]) == [];
    }
  }

  /** Trimming white space keeps the strikes. */
  lemma TrimStrikes(s: string)
    ensures Strikes(Trim(s)) == Strikes(s)
  {
    TrimStartStrikes(s);
    TrimEndStrikes(TrimStart(s));
  }

  // Every character-wise property of a text holds for each of its slices.

  lemma AllowedSlice(s: string, i: int, j: int)
    requires 0 <= i <= j <= |s| && AllAllowed(s)
    ensures AllAllowed(s[i..j])
  {
    forall k | 0 <= k < j - i ensures IsAllowed(s[i..j][k]) {
      assert s[i..j][k] == s[i + k];
    }
  }

  lemma StrikesAndHyphensSlice(s: string, i: int, j: int)
    requires 0 <= i <= j <= |s| && StrikesAndHyphens(s)
    ensures StrikesAndHyphens(s[i..j])
  {
    forall k | 0 <= k < j - i ensures IsStrike(s[i..j][k]) || s[i..j][k] == '-' {
      assert s[i..j][k] == s[i + k];
    }
  }

  lemma NoSpacesSlice(s: string, i: int, j: int)
    requires 0 <= i <= j <= |s| && NoSpaces(s)
    ensures NoSpaces(s[i..j])
  {
    forall k | 0 <= k < j - i ensures !IsSpace(s[i..j][k]) {
      assert s[i..j][k] == s[i + k];
    }
  }

  lemma NoDoubleHyphenSlice(s: string, i: int, j: int)
    requires 0 <= i <= j <= |s| && NoDoubleHyphen(s)
    ensures NoDoubleHyphen(s[i..j])
  {
    forall k | 0 <= k < j - i - 1 ensures !(s[i..j][k] == '-' && s[i..j][k + 1] == '-') {
      assert s[i..j][k] == s[i + k] && s[i..j][k + 1] == s[i + k + 1];
    }
  }

  lemma StrikesAndHyphensCons(c: char, s: string)
    requires (IsStrike(c) || c == '-') && StrikesAndHyphens(s)
    ensures StrikesAndHyphens([c] + s)
  {
    forall k | 1 <= k < |s| + 1 ensures IsStrike(([c] + s)[k]) || ([c] + s)[k] == '-' {
      assert ([c] + s)[k] == s[k - 1];
    }
  }

  /** Drops a leading run of hyphens. */
  function DropHyphens(s: string): (r: string)
    ensures |r| <= |s| && r == s[|s| - |r|..]
    ensures r != [] ==> r[0] != '-'
    ensures s != [] && s[0] != '-' ==> r == s
    decreases |s|
  {
    if s != [] && s[0] == '-' then DropHyphens(s[1..]) else s
  }

  lemma {:induction false} DropHyphensStrikes(s: string)
    ensures Strikes(DropHyphens(s)) == Strikes(s)
    decreases |s|
  {
    if s != [] && s[0] == '-' {
      DropHyphensStrikes(s[1..]);
      assert Strikes(s) == [] + Strikes(s[1..]);
    }
  }

  predicate AllHyphens(s: string) {
    forall k :: 0 <= k < |s| ==> s[k] == '-'
  }

  /** Only hyphens are dropped. */
  lemma {:induction false} DropHyphensDropsHyphens(s: string)
    ensures AllHyphens(s[..|s| - |DropHyphens(s)|])
    decreases |s|
  {
    if s != [] && s[0] == '-' {
      var n := |s| - |DropHyphens(s)|;
      DropHyphensDropsHyphens(s[1..]);
      assert s[..n] == [s[0]] + s[1..][..n - 1];
      var t := s[1..][..n - 1];
      forall k | 1 <= k < n ensures s[..n][k] == '-' {
        assert s[..n][k] == t[k - 1];
      }
    }
  }

  /** `.replace(/\s+/g, "-")`: every maximal run of white space becomes one hyphen. */
  function SpacesToHyphen(s: string): (r: string)
    decreases |s|
  {
    if s == [] then []
    else if IsSpace(s[0]) then "-" + SpacesToHyphen(TrimStart(s[1..]))
    else [s[0]] + SpacesToHyphen(s[1..])
  }

  /** The `\s+` replacement keeps the strikes in order. */
  lemma {:induction false} SpacesToHyphenStrikes(s: string)
    ensures Strikes(SpacesToHyphen(s)) == Strikes(s)
    decreases |s|
  {
    if s != [] {
      if IsSpace(s[0]) {
        var t := TrimStart(s[1..]);
        TrimStartStrikes(s[1..]);
        SpacesToHyphenStrikes(t);
        StrikesAppend("-", SpacesToHyphen(t));
      } else {
        SpacesToHyphenStrikes(s[1..]);
        StrikesAppend([s[0]], SpacesToHyphen(s[1..]));
      }
    }
  }

  /** The `\s+` replacement turns allowed input into strikes and hyphens. */
  lemma {:induction false} SpacesToHyphenShape(s: string)
    requires AllAllowed(s)
    ensures StrikesAndHyphens(SpacesToHyphen(s))
    decreases |s|
  {
    if s != [] {
      var r := SpacesToHyphen(s);
      if IsSpace(s[0]) {
        var t := TrimStart(s[1..]);
        AllowedSlice(s, |s| - |t|, |s|);
        assert s[|s| - |t|..|s|] == t;
        SpacesToHyphenShape(t);
        assert r == "-" + SpacesToHyphen(t);
      } else {
        AllowedSlice(s, 1, |s|);
        assert s[1..|s|] == s[1..];
        SpacesToHyphenShape(s[1..]);
        assert r == [s[0]] + SpacesToHyphen(s[1..]);
        assert IsAllowed(s[0]);
      }
    }
  }

  /** The `\s+` replacement leaves text without white space unchanged. */
  lemma {:induction false} SpacesToHyphenIdentity(s: string)
    requires NoSpaces(s)
    ensures SpacesToHyphen(s) == s
    decreases |s|
  {
    if s != [] {
      assert !IsSpace(s[0]);
      NoSpacesSlice(s, 1, |s|);
      assert s[1..|s|] == s[1..];
      SpacesToHyphenIdentity(s[1..]);
      assert s == [s[0]] + s[1..];
    }
  }

  /** `.replace(/-+/g, "-")`: every maximal run of hyphens becomes one hyphen. */
  function CollapseHyphens(s: string): (r: string)
    ensures NoDoubleHyphen(r)
    ensures s == [] <==> r == []
    ensures s != [] ==> r[0] == s[0]
    decreases |s|
  {
    if s == [] then []
    else if s[0] == '-' then "-" + CollapseHyphens(DropHyphens(s[1..]))
    else [s[0]] + CollapseHyphens(s[1..])
  }

  /** Collapsing hyphen runs keeps the strikes in order. */
  lemma {:induction false} CollapseHyphensStrikes(s: string)
    ensures Strikes(CollapseHyphens(s)) == Strikes(s)
    decreases |s|
  {
    if s != [] {
      if s[0] == '-' {
        var d := DropHyphens(s[1..]);
        DropHyphensStrikes(s[1..]);
        CollapseHyphensStrikes(d);
        StrikesAppend("-", CollapseHyphens(d));
      } else {
        CollapseHyphensStrikes(s[1..]);
        StrikesAppend([s[0]], CollapseHyphens(s[1..]));
      }
    }
  }

  /** Collapsing hyphen runs of strikes and hyphens gives strikes and hyphens. */
  lemma {:induction false} CollapseHyphensShape(s: string)
    requires StrikesAndHyphens(s)
    ensures StrikesAndHyphens(CollapseHyphens(s))
    decreases |s|
  {
    if s != [] {
      var r := CollapseHyphens(s);
      StrikesAndHyphensSlice(s, 1, |s|);
      assert s[1..|s|] == s[1..];
      if s[0] == '-' {
        var d := DropHyphens(s[1..]);
        StrikesAndHyphensSlice(s[1..], |s| - 1 - |d|, |s| - 1);
        assert s[1..][|s| - 1 - |d|..|s| - 1] == d;
        CollapseHyphensShape(d);
        StrikesAndHyphensCons('-', CollapseHyphens(d));
      } else {
        CollapseHyphensShape(s[1..]);
        StrikesAndHyphensCons(s[0], CollapseHyphens(s[1..]));
      }
    }
  }

  /** Text without a double hyphen is left unchanged by collapsing. */
  lemma {:induction false} CollapseHyphensIdentity(s: string)
    requires NoDoubleHyphen(s)
    ensures CollapseHyphens(s) == s
    decreases |s|
  {
    if s != [] {
      NoDoubleHyphenSlice(s, 1, |s|);
      assert s[1..|s|] == s[1..];
      CollapseHyphensIdentity(s[1..]);
      if s[0] == '-' && |s| > 1 {
        assert s[1] != '-';
        assert DropHyphens(s[1..]) == s[1..];
      }
      assert s == [s[0]] + s[1..];
    }
  }

  /** The `^-` alternative: drops one leading hyphen. */
  function DropLeadingHyphen(s: string): (r: string)
    ensures s != [] && s[0] == '-' ==> r == s[1..]
    ensures !(s != [] && s[0] == '-') ==> r == s
  {
    if s != [] && s[0] == '-' then s[1..] else s
  }

  /** The `-$` alternative: drops one trailing hyphen. */
  function DropTrailingHyphen(s: string): (r: string)
    ensures s != [] && s[|s| - 1] == '-' ==> r == s[..|s| - 1]
    ensures !(s != [] && s[|s| - 1] == '-') ==> r == s
  {
    if s != [] && s[|s| - 1] == '-' then s[..|s| - 1] else s
  }

  /** `.replace(/^-|-$/g, "")`: drops one hyphen at the start and one at the end. */
  function TrimHyphens(s: string): string {
    DropTrailingHyphen(DropLeadingHyphen(s))
  }

  lemma DropLeadingHyphenStrikes(s: string)
    ensures Strikes(DropLeadingHyphen(s)) == Strikes(s)
  {
    if s != [] && s[0] == '-' {
      assert Strikes(s) == [] + Strikes(s[1..]);
    }
  }

  lemma DropTrailingHyphenStrikes(s: string)
    ensures Strikes(DropTrailingHyphen(s)) == Strikes(s)
  {
    if s != [] && s[|s| - 1] == '-' {
      var r := s[..|s| - 1];
      assert s == r + ['-'];
      StrikesAppend(r, ['-']);
      assert Strikes(['-']) == [];
    }
  }

  /** Trimming the edge hyphens keeps the strikes; text without edge hyphens is kept. */
  lemma TrimHyphensStrikes(s: string)
    ensures Strikes(TrimHyphens(s)) == Strikes(s)
    ensures s != [] && s[0] != '-' && s[|s| - 1] != '-' ==> TrimHyphens(s) == s
  {
    DropLeadingHyphenStrikes(s);
    DropTrailingHyphenStrikes(DropLeadingHyphen(s));
  }

  lemma DropLeadingHyphenShape(s: string)
    ensures StrikesAndHyphens(s) ==> StrikesAndHyphens(DropLeadingHyphen(s))
    ensures NoDoubleHyphen(s) ==> NoDoubleHyphen(DropLeadingHyphen(s))
    ensures var r := DropLeadingHyphen(s); NoDoubleHyphen(s) && r != [] ==> r[0] != '-'
  {
    if s != [] && s[0] == '-' {
      if StrikesAndHyphens(s) {
        StrikesAndHyphensSlice(s, 1, |s|);
      }
      if NoDoubleHyphen(s) {
        NoDoubleHyphenSlice(s, 1, |s|);
      }
      assert s[1..|s|] == s[1..];
    }
  }

  lemma DropTrailingHyphenShape(s: string)
    ensures StrikesAndHyphens(s) ==> StrikesAndHyphens(DropTrailingHyphen(s))
    ensures NoDoubleHyphen(s) ==> NoDoubleHyphen(DropTrailingHyphen(s))
    ensures var r := DropTrailingHyphen(s); NoDoubleHyphen(s) && r != [] ==> r[|r| - 1] != '-'
    ensures var r := DropTrailingHyphen(s); r != [] ==> r[0] == s[0]
  {
    if s != [] && s[|s| - 1] == '-' {
      if StrikesAndHyphens(s) {
        StrikesAndHyphensSlice(s, 0, |s| - 1);
      }
      if NoDoubleHyphen(s) {
        NoDoubleHyphenSlice(s, 0, |s| - 1);
        if |s| >= 2 {
          assert s[|s| - 2] != '-';
        }
      }
      assert s[0..|s| - 1] == s[..|s| - 1];
    }
  }

  /** Trimming the edge hyphens keeps strikes and hyphens as such, and text without a double
      hyphen comes out without a hyphen at either end. */
  lemma TrimHyphensShape(s: string)
    ensures StrikesAndHyphens(s) ==> StrikesAndHyphens(TrimHyphens(s))
    ensures NoDoubleHyphen(s) ==> NoDoubleHyphen(TrimHyphens(s))
    ensures var r := TrimHyphens(s);
      NoDoubleHyphen(s) && r != [] ==> r[0] != '-' && r[|r| - 1] != '-'
  {
    DropLeadingHyphenShape(s);
    DropTrailingHyphenShape(DropLeadingHyphen(s));
  }

  // ---------------------------------------------------------------------------
  // A reference for the normal form: the runs between separators, joined by hyphens

  /** White space or a hyphen: what may separate two strikes. */
  predicate IsSeparator(c: char) {
    IsSpace(c) || c == '-'
  }

  predicate AllSeparators(s: string) {
    forall k :: 0 <= k < |s| ==> IsSeparator(s[k])
  }

  /** The reference normal form, read left to right: the maximal runs of characters other
      than separators, joined by single hyphens. `gap` records a separator since the last
      kept character, `started` that a character has been kept. */
  function JoinRuns(s: string, gap: bool, started: bool): string
    decreases |s|
  {
    if s == [] then []
    else if IsSeparator(s[0]) then JoinRuns(s[1..], true, started)
    else (if gap && started then "-" else "") + [s[0]] + JoinRuns(s[1..], false, true)
  }

  function JoinedRuns(s: string): string {
    JoinRuns(s, false, false)
  }

  lemma SpacesAreSeparators(s: string)
    requires AllSpaces(s)
    ensures AllSeparators(s)
  {
    forall k | 0 <= k < |s| ensures IsSeparator(s[k]) {
      assert IsSpace(s[k]);
    }
  }

  lemma HyphensAreSeparators(s: string)
    requires AllHyphens(s)
    ensures AllSeparators(s)
  {
    forall k | 0 <= k < |s| ensures IsSeparator(s[k]) {
      assert s[k] == '-';
    }
  }

  lemma AllSeparatorsTail(s: string)
    requires s != [] && AllSeparators(s)
    ensures AllSeparators(s[1..])
  {
    forall k | 0 <= k < |s| - 1 ensures IsSeparator(s[1..][k]) {
      assert s[1..][k] == s[k + 1];
    }
  }

  /** A leading run of k separators only records a gap. */
  lemma {:induction false} JoinRunsSkip(s: string, k: nat, gap: bool, started: bool)
    requires 0 < k <= |s| && AllSeparators(s[..k])
    ensures JoinRuns(s, gap, started) == JoinRuns(s[k..], true, started)
    decreases k
  {
    assert IsSeparator(s[..k][0]);
    if k > 1 {
      AllSeparatorsTail(s[..k]);
      assert s[1..][..k - 1] == s[..k][1..];
      JoinRunsSkip(s[1..], k - 1, true, started);
      assert s[1..][k - 1..] == s[k..];
    }
  }

  /** Before the first kept character a gap makes no difference. */
  lemma JoinRunsUnstarted(s: string, gap: bool)
    ensures JoinRuns(s, gap, false) == JoinRuns(s, false, false)
  {
  }

  lemma {:induction false} JoinRunsAllSeparators(t: string, gap: bool, started: bool)
    requires AllSeparators(t)
    ensures JoinRuns(t, gap, started) == []
    decreases |t|
  {
    if t != [] {
      AllSeparatorsTail(t);
      JoinRunsAllSeparators(t[1..], true, started);
    }
  }

  /** Trailing separators add nothing. */
  lemma {:induction false} JoinRunsTrailing(a: string, t: string, gap: bool, started: bool)
    requires AllSeparators(t)
    ensures JoinRuns(a + t, gap, started) == JoinRuns(a, gap, started)
    decreases |a|
  {
    if a == [] {
      assert a + t == t;
      JoinRunsAllSeparators(t, gap, started);
    } else {
      assert (a + t)[0] == a[0] && (a + t)[1..] == a[1..] + t;
      if IsSeparator(a[0]) {
        JoinRunsTrailing(a[1..], t, true, started);
      } else {
        JoinRunsTrailing(a[1..], t, false, true);
      }
    }
  }

  /** `trimStart` keeps the runs. */
  lemma TrimStartKeepsRuns(s: string)
    ensures JoinedRuns(TrimStart(s)) == JoinedRuns(s)
  {
    var t := TrimStart(s);
    var n := |s| - |t|;
    if n > 0 {
      TrimStartDropsSpaces(s);
      SpacesAreSeparators(s[..n]);
      JoinRunsSkip(s, n, false, false);
      JoinRunsUnstarted(t, true);
    } else {
      assert t == s;
    }
  }

  /** `trimEnd` keeps the runs. */
  lemma TrimEndKeepsRuns(t: string)
    ensures JoinedRuns(TrimEnd(t)) == JoinedRuns(t)
  {
    var r := TrimEnd(t);
    TrimEndDropsSpaces(t);
    SpacesAreSeparators(t[|r|..]);
    assert t == r + t[|r|..];
    JoinRunsTrailing(r, t[|r|..], false, false);
  }

  /** `trim` keeps the runs. */
  lemma TrimKeepsRuns(s: string)
    ensures JoinedRuns(Trim(s)) == JoinedRuns(s)
  {
    TrimStartKeepsRuns(s);
    TrimEndKeepsRuns(TrimStart(s));
  }

  /** The `\s+` replacement keeps the runs: a run of white space and the hyphen replacing
      it are both one gap. */
  lemma {:induction false} SpacesToHyphenKeepsRuns(s: string, gap: bool, started: bool)
    ensures JoinRuns(SpacesToHyphen(s), gap, started) == JoinRuns(s, gap, started)
    decreases |s|
  {
    if s != [] {
      if IsSpace(s[0]) {
        var t := TrimStart(s[1..]);
        var x := SpacesToHyphen(t);
        assert SpacesToHyphen(s) == "-" + x;
        assert ("-" + x)[0] == '-' && ("-" + x)[1..] == x;
        SpacesToHyphenKeepsRuns(t, true, started);
        var n := |s[1..]| - |t|;
        if n > 0 {
          TrimStartDropsSpaces(s[1..]);
          SpacesAreSeparators(s[1..][..n]);
          JoinRunsSkip(s[1..], n, true, started);
        } else {
          assert t == s[1..];
        }
      } else {
        var y := SpacesToHyphen(s[1..]);
        assert SpacesToHyphen(s) == [s[0]] + y;
        assert ([s[0]] + y)[0] == s[0] && ([s[0]] + y)[1..] == y;
        if IsSeparator(s[0]) {
          SpacesToHyphenKeepsRuns(s[1..], true, started);
        } else {
          SpacesToHyphenKeepsRuns(s[1..], false, true);
        }
      }
    }
  }

  /** The `-+` replacement keeps the runs: a run of hyphens is one gap, as is one hyphen. */
  lemma {:induction false} CollapseHyphensKeepsRuns(s: string, gap: bool, started: bool)
    ensures JoinRuns(CollapseHyphens(s), gap, started) == JoinRuns(s, gap, started)
    decreases |s|
  {
    if s != [] {
      if s[0] == '-' {
        var t := DropHyphens(s[1..]);
        var x := CollapseHyphens(t);
        assert CollapseHyphens(s) == "-" + x;
        assert ("-" + x)[0] == '-' && ("-" + x)[1..] == x;
        CollapseHyphensKeepsRuns(t, true, started);
        var n := |s[1..]| - |t|;
        if n > 0 {
          DropHyphensDropsHyphens(s[1..]);
          HyphensAreSeparators(s[1..][..n]);
          JoinRunsSkip(s[1..], n, true, started);
        } else {
          assert t == s[1..];
        }
      } else {
        var y := CollapseHyphens(s[1..]);
        assert CollapseHyphens(s) == [s[0]] + y;
        assert ([s[0]] + y)[0] == s[0] && ([s[0]] + y)[1..] == y;
        if IsSeparator(s[0]) {
          CollapseHyphensKeepsRuns(s[1..], true, started);
        } else {
          CollapseHyphensKeepsRuns(s[1..], false, true);
        }
      }
    }
  }

  /** The `^-|-$` replacement keeps the runs: an edge hyphen adds nothing. */
  lemma TrimHyphensKeepsRuns(s: string)
    ensures JoinedRuns(TrimHyphens(s)) == JoinedRuns(s)
  {
    var d := DropLeadingHyphen(s);
    if s != [] && s[0] == '-' {
      JoinRunsUnstarted(s[1..], true);
    }
    if d != [] && d[|d| - 1] == '-' {
      var e := d[..|d| - 1];
      assert d == e + "-";
      assert AllSeparators("-");
      JoinRunsTrailing(e, "-", false, false);
    }
  }

  /** A canonical text reads back as itself. */
  lemma {:induction false} JoinRunsCanonical(s: string, started: bool)
    requires StrikesAndHyphens(s) && NoDoubleHyphen(s)
    requires s != [] ==> s[|s| - 1] != '-'
    requires s != [] && s[0] == '-' ==> started
    ensures JoinRuns(s, false, started) == s
    decreases |s|
  {
    if s != [] {
      if s[0] == '-' {
        assert |s| >= 2 && s[1] != '-';
        assert IsStrike(s[1]);
        StrikeIsNotSpace(s[1]);
        StrikesAndHyphensSlice(s, 2, |s|);
        NoDoubleHyphenSlice(s, 2, |s|);
        assert s[2..|s|] == s[2..];
        JoinRunsCanonical(s[2..], true);
        assert s[1..][0] == s[1] && s[1..][1..] == s[2..];
        assert s == "-" + [s[1]] + s[2..];
      } else {
        assert IsStrike(s[0]);
        StrikeIsNotSpace(s[0]);
        StrikesAndHyphensSlice(s, 1, |s|);
        NoDoubleHyphenSlice(s, 1, |s|);
        assert s[1..|s|] == s[1..];
        JoinRunsCanonical(s[1..], true);
        assert s == [s[0]] + s[1..];
      }
    }
  }

  // ---------------------------------------------------------------------------
  // normalizeAndValidateCombo

  /** The replacement chain `normalizeAndValidateCombo` applies to the trimmed input. */
  function Normalized(v: string): string {
    TrimHyphens(CollapseHyphens(SpacesToHyphen(v)))
  }

  /** Allowed input normalises to strikes joined by single hyphens, with the strikes kept. */
  lemma NormalizedProperties(v: string)
    requires AllAllowed(v)
    ensures var n := Normalized(v);
      && StrikesAndHyphens(n) && NoDoubleHyphen(n)
      && (n != [] ==> n[0] != '-' && n[|n| - 1] != '-')
      && Strikes(n) == Strikes(v)
  {
    var w := SpacesToHyphen(v);
    SpacesToHyphenStrikes(v);
    SpacesToHyphenShape(v);
    CollapseHyphensStrikes(w);
    CollapseHyphensShape(w);
    TrimHyphensStrikes(CollapseHyphens(w));
    TrimHyphensShape(CollapseHyphens(w));
  }

  /** Allowed input normalises to a canonical combo exactly when it holds a strike. */
  lemma NormalizedAccepted(v: string)
    requires AllAllowed(v)
    ensures var n := Normalized(v);
      && (HasStrike(n) <==> Strikes(v) != [])
      && (HasStrike(n) ==> IsCanonical(n))
      && Strikes(n) == Strikes(v)
  {
    NormalizedProperties(v);
    HasStrikeIff(Normalized(v));
  }

  /** The replacement chain keeps the runs of its input. */
  lemma NormalizedKeepsRuns(v: string)
    ensures JoinedRuns(Normalized(v)) == JoinedRuns(v)
  {
    var w := SpacesToHyphen(v);
    SpacesToHyphenKeepsRuns(v, false, false);
    CollapseHyphensKeepsRuns(w, false, false);
    TrimHyphensKeepsRuns(CollapseHyphens(w));
  }

  /** An accepted normal form is the input's runs joined by single hyphens. */
  lemma NormalizedIsJoinedRuns(v: string)
    requires AllAllowed(v) && HasStrike(Normalized(v))
    ensures Normalized(v) == JoinedRuns(v)
  {
    NormalizedAccepted(v);
    NormalizedKeepsRuns(v);
    JoinRunsCanonical(Normalized(v), false);
  }

  /** Every step of the chain leaves a canonical combo as it is. */
  lemma NormalizedCanonical(v: string)
    requires IsCanonical(v)
    ensures Normalized(v) == v
  {
    assert NoSpaces(v) by {
      forall i | 0 <= i < |v| ensures !IsSpace(v[i]) {
        assert IsStrike(v[i]) || v[i] == '-';
      }
    }
    SpacesToHyphenIdentity(v);
    CollapseHyphensIdentity(v);
    TrimHyphensStrikes(v);
  }

  /** The `{ ok, value }` record the normaliser returns. */
  datatype Validation = Validation(ok: bool, value: string)

  /** `normalizeAndValidateCombo(raw)`: accepted exactly when the trimmed input is made of
      strikes, white space and hyphens only and holds at least one strike; an accepted value
      is canonical and keeps the typed strikes in order; a rejection carries "". */
  function NormalizeAndValidateCombo(raw: string): (r: Validation)
    ensures r.ok <==> AllAllowed(Trim(raw)) && HasStrike(raw)
    ensures !r.ok ==> r.value == ""
    ensures r.ok ==> IsCanonical(r.value)
    ensures r.ok ==> Strikes(r.value) == Strikes(raw)
  {
    var v := Trim(raw);
    TrimStrikes(raw);
    HasStrikeIff(raw);
    if !(|v| > 0 && AllAllowed(v)) then
      Validation(false, "")
    else
      NormalizedAccepted(v);
      var normalized := Normalized(v);
      if !HasStrike(normalized) then Validation(false, "")
      else Validation(true, normalized)
  }

  /** An accepted combo is the typed text's maximal runs between white space and hyphens,
      joined by single hyphens. */
  lemma NormalizeIsJoinedRuns(raw: string)
    ensures NormalizeAndValidateCombo(raw).ok ==> NormalizeAndValidateCombo(raw).value == JoinedRuns(raw)
  {
    if NormalizeAndValidateCombo(raw).ok {
      NormalizedIsJoinedRuns(Trim(raw));
      TrimKeepsRuns(raw);
    }
  }

  /** A canonical combo is its own normal form. */
  lemma CanonicalIsFixedPoint(v: string)
    requires IsCanonical(v)
    ensures NormalizeAndValidateCombo(v) == Validation(true, v)
  {
    CanonicalIsTrimmed(v);
    CanonicalIsAllowed(v);
    NormalizedCanonical(v);
    assert HasStrike(v) by { assert IsStrike(v[0]); }
  }

  lemma CanonicalIsTrimmed(v: string)
    requires IsCanonical(v)
    ensures Trim(v) == v
  {
    StrikeIsNotSpace(v[0]);
    assert TrimStart(v) == v;
    StrikeIsNotSpace(v[|v| - 1]);
    assert TrimEnd(v) == v;
  }

  lemma StrikeIsNotSpace(c: char)
    requires IsStrike(c)
    ensures !IsSpace(c)
  {
  }

  lemma CanonicalIsAllowed(v: string)
    requires IsCanonical(v)
    ensures AllAllowed(v)
  {
    forall i | 0 <= i < |v| ensures IsAllowed(v[i]) {
      assert IsStrike(v[i]) || v[i] == '-';
    }
  }

  /** Normalising an accepted value again returns it unchanged. */
  lemma NormalizeIsIdempotent(raw: string)
    requires NormalizeAndValidateCombo(raw).ok
    ensures NormalizeAndValidateCombo(NormalizeAndValidateCombo(raw).value) == NormalizeAndValidateCombo(raw)
  {
    CanonicalIsFixedPoint(NormalizeAndValidateCombo(raw).value);
  }

  /** Input of hyphens and white space only is rejected. */
  lemma NoStrikeIsRejected(raw: string)
    requires forall i :: 0 <= i < |raw| ==> raw[i] == '-' || IsSpace(raw[i])
    ensures NormalizeAndValidateCombo(raw) == Validation(false, "")
  {
    assert !HasStrike(raw) by {
      forall i | 0 <= i < |raw| ensures !IsStrike(raw[i]) {
        assert raw[i] == '-' || IsSpace(raw[i]);
      }
    }
  }

  /** Rewriting each isolated white-space character of `s` to '-' is what the
      `\s+` replacement does when no two white-space characters are adjacent. */
  lemma {:induction false} IsolatedSpacesToHyphen(s: string, v: string)
    requires |s| == |v|
    requires forall i :: 0 <= i < |s| ==> v[i] == if IsSpace(s[i]) then '-' else s[i]
    requires forall i :: 0 <= i < |s| - 1 ==> !(IsSpace(s[i]) && IsSpace(s[i + 1]))
    ensures SpacesToHyphen(s) == v
    decreases |s|
  {
    if s != [] {
      IsolatedSpacesToHyphen(s[1..], v[1..]);
      if IsSpace(s[0]) && |s| > 1 {
        assert !IsSpace(s[1..][0]);
      }
      assert v == [v[0]] + v[1..];
    }
  }

  /** The spoken form of a canonical combo starts and ends with a strike, so `trim` keeps it. */
  lemma SpokenCanonicalTrimmed(v: string)
    requires IsCanonical(v)
    ensures Trim(Speech.SpeakableCombo(v)) == Speech.SpeakableCombo(v)
  {
    var w := Speech.SpeakableCombo(v);
    assert IsStrike(v[0]) && IsStrike(v[|v| - 1]);
    assert w[0] == v[0] && w[|w| - 1] == v[|v| - 1];
    assert !IsSpace(w[0]) && !IsSpace(w[|w| - 1]);
    assert TrimStart(w) == w;
    assert TrimEnd(w) == w;
  }

  /** The spoken form of a canonical combo: no white space at either end, only allowed
      characters, and the `\s+` replacement turns it back into the combo. */
  lemma SpokenCanonicalShape(v: string)
    requires IsCanonical(v)
    ensures var w := Speech.SpeakableCombo(v);
      Trim(w) == w && AllAllowed(w) && SpacesToHyphen(w) == v
  {
    SpokenCanonicalTrimmed(v);
    SpokenCanonicalAllowed(v);
    SpokenCanonicalRewrite(v);
  }

  lemma SpokenCanonicalAllowed(v: string)
    requires IsCanonical(v)
    ensures AllAllowed(Speech.SpeakableCombo(v))
  {
    SpokenCanonicalChars(v);
  }

  lemma SpokenCanonicalRewrite(v: string)
    requires IsCanonical(v)
    ensures SpacesToHyphen(Speech.SpeakableCombo(v)) == v
  {
    SpokenCanonicalChars(v);
    SpokenCanonicalIsolated(v);
    IsolatedSpacesToHyphen(Speech.SpeakableCombo(v), v);
  }

  /** Each spoken character is a strike or a space, and maps back to the combo's. */
  lemma SpokenCanonicalChars(v: string)
    requires IsCanonical(v)
    ensures var w := Speech.SpeakableCombo(v);
      forall i :: 0 <= i < |w| ==> IsAllowed(w[i]) && v[i] == if IsSpace(w[i]) then '-' else w[i]
  {
    var w := Speech.SpeakableCombo(v);
    forall i | 0 <= i < |w| ensures IsAllowed(w[i]) && v[i] == if IsSpace(w[i]) then '-' else w[i] {
      assert IsStrike(v[i]) || v[i] == '-';
    }
  }

  /** No two spaces are adjacent in the spoken form of a canonical combo. */
  lemma SpokenCanonicalIsolated(v: string)
    requires IsCanonical(v)
    ensures var w := Speech.SpeakableCombo(v);
      forall i :: 0 <= i < |w| - 1 ==> !(IsSpace(w[i]) && IsSpace(w[i + 1]))
  {
    var w := Speech.SpeakableCombo(v);
    forall i | 0 <= i < |w| - 1 ensures !(IsSpace(w[i]) && IsSpace(w[i + 1])) {
      assert !(v[i] == '-' && v[i + 1] == '-');
      assert IsStrike(v[i]) || v[i] == '-';
      assert IsStrike(v[i + 1]) || v[i + 1] == '-';
    }
  }

  /** A stored combo, spoken as `speakableCombo` renders it and typed back in as heard,
      is accepted as the same combo. */
  lemma SpokenComboIsAcceptedBack(v: string)
    requires IsCanonical(v)
    ensures NormalizeAndValidateCombo(Speech.SpeakableCombo(v)) == Validation(true, v)
  {
    var w := Speech.SpeakableCombo(v);
    SpokenCanonicalShape(v);
    CollapseHyphensIdentity(v);
    TrimHyphensStrikes(v);
    assert IsStrike(v[0]) && IsStrike(v[|v| - 1]);
    assert Normalized(w) == v;
    assert |Trim(w)| > 0 && AllAllowed(Trim(w));
    assert HasStrike(v);
  }

  /** "1 2 3" is stored as "1-2-3". */
  lemma NormalizeSpacedExample()
    ensures NormalizeAndValidateCombo("1 2 3") == Validation(true, "1-2-3")
  {
    assert IsCanonical("1-2-3");
    assert Speech.SpeakableCombo("1-2-3") == "1 2 3";
    SpokenComboIsAcceptedBack("1-2-3");
  }

  /** "7-8" and the empty input are rejected. */
  lemma NormalizeRejectsExamples()
    ensures NormalizeAndValidateCombo("7-8") == Validation(false, "")
    ensures NormalizeAndValidateCombo("") == Validation(false, "")
  {
    assert !IsSpace('7') && !IsSpace('8');
    assert Trim("7-8") == "7-8";
    assert !IsAllowed("7-8"[0]);
  }

  // ---------------------------------------------------------------------------
  // The library's list edits

  /** `combos.filter((_, idx) => idx !== i)`. */
  function WithoutIndex<T>(s: seq<T>, i: int): (r: seq<T>)
    ensures 0 <= i < |s| ==> r == s[..i] + s[i + 1..]
    ensures !(0 <= i < |s|) ==> r == s
    decreases |s|
  {
    if s == [] then []
    else WithoutIndex(s[..|s| - 1], i) + (if i == |s| - 1 then [] else [s[|s| - 1]])
  }

  predicate NoDuplicates<T(==)>(s: seq<T>) {
    forall i, j :: 0 <= i < j < |s| ==> s[i] != s[j]
  }

  /** Removing one element never introduces a duplicate. */
  lemma WithoutIndexKeepsDistinct<T>(s: seq<T>, i: int)
    requires NoDuplicates(s)
    ensures NoDuplicates(WithoutIndex(s, i))
  {
    var r := WithoutIndex(s, i);
    if 0 <= i < |s| {
      forall a, b | 0 <= a < b < |r| ensures r[a] != r[b] {
        var a', b' := if a < i then a else a + 1, if b < i then b else b + 1;
        assert r[a] == s[a'] && r[b] == s[b'];
      }
    }
  }

  /** Appending an element not yet present never introduces a duplicate. */
  lemma AppendFreshKeepsDistinct<T>(s: seq<T>, x: T)
    requires NoDuplicates(s) && x !in s
    ensures NoDuplicates(s + [x])
  {
    var r := s + [x];
    forall a, b | 0 <= a < b < |r| ensures r[a] != r[b] {
      if b == |s| {
        assert r[a] == s[a];
      }
    }
  }

  const InvalidComboMessage := "Only numbers 1\U{2013}6 allowed (use - or spaces). Example: 1-2-3"
  const DuplicateComboMessage := "That combo already exists."

  /** The combo library component: the combo list it edits, the text field and the
      error line. */
  class Library {
    var combos: seq<string>
    var input: string
    var error: string

    constructor (initial: seq<string>)
      ensures combos == initial && input == "" && error == ""
    {
      combos := initial;
      input := "";
      error := "";
    }

    /** The text field's `onChange`. */
    method TypeInput(text: string)
      modifies this
      ensures input == text && combos == old(combos) && error == old(error)
    {
      input := text;
    }

    /** `addCombo`: an invalid or already stored combo leaves the list and the input as they
        were and sets the matching message; otherwise the canonical value is appended at the
        end, and the input and the message are cleared. */
    method AddCombo()
      modifies this
      ensures var res := NormalizeAndValidateCombo(old(input));
        if !res.ok then
          combos == old(combos) && input == old(input) && error == InvalidComboMessage
        else if res.value in old(combos) then
          combos == old(combos) && input == old(input) && error == DuplicateComboMessage
        else
          combos == old(combos) + [res.value] && IsCanonical(res.value) && input == "" && error == ""
      ensures NoDuplicates(old(combos)) ==> NoDuplicates(combos)
    {
      var result := NormalizeAndValidateCombo(input);
      if !result.ok {
        error := InvalidComboMessage;
        return;
      }
      var v := result.value;
      if v in combos {
        error := DuplicateComboMessage;
        return;
      }
      if NoDuplicates(combos) {
        AppendFreshKeepsDistinct(combos, v);
      }
      combos := combos + [v];
      input := "";
      error := "";
    }

    /** `removeCombo(i)`: drops exactly the element at index i, keeping the order of the
        rest; an index outside the list changes nothing. */
    method RemoveCombo(i: int)
      modifies this
      ensures 0 <= i < |old(combos)| ==> combos == old(combos)[..i] + old(combos)[i + 1..]
      ensures !(0 <= i < |old(combos)|) ==> combos == old(combos)
      ensures input == old(input) && error == old(error)
      ensures NoDuplicates(old(combos)) ==> NoDuplicates(combos)
    {
      if NoDuplicates(combos) {
        WithoutIndexKeepsDistinct(combos, i);
      }
      combos := WithoutIndex(combos, i);
    }
  }
}
