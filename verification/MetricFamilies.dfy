/** Keys for the metric families the daemon names (`ladder-rules.js`). */
module MetricFamilies {
  import opened Prelude
  import opened Decimal
  import opened Sequences

  // ---------- Folding a name ----------

  predicate IsKeyChar(c: char) { 'a' <= c <= 'z' || '0' <= c <= '9' }

  /** Every run of other characters becomes one `-`; `inRun` tells whether the text before ended in such a run. */
  function Dashed(text: string, inRun: bool): string
    decreases |text|
  {
    if text == [] then []
    else if IsKeyChar(text[0]) then [text[0]] + Dashed(text[1..], false)
    else (if inRun then [] else "-") + Dashed(text[1..], true)
  }

  function TrimLeft(text: string): string
    decreases |text|
  {
    if text != [] && text[0] == '-' then TrimLeft(text[1..]) else text
  }

  function TrimRight(text: string): string
    decreases |text|
  {
    if text != [] && text[|text| - 1] == '-' then TrimRight(text[..|text| - 1]) else text
  }

  /** The key a family would like; `lower` is the language's lower-casing. */
  function BaseKey(family: string, lower: string -> string): string {
    var folded := TrimRight(TrimLeft(Dashed(lower(family), false)));
    if folded == [] then "other" else folded
  }

  /** `base-n`. */
  function Suffixed(base: string, n: nat): string { base + "-" + PrintNat(n) }

  // ---------- Keys ----------

  ghost predicate Safe(key: string) {
    key != [] && key[0] != '-' && key[|key| - 1] != '-' && forall i :: 0 <= i < |key| ==> IsKeyChar(key[i]) || key[i] == '-'
  }

  lemma {:induction false} DashedIsSafe(text: string, inRun: bool)
    ensures forall i :: 0 <= i < |Dashed(text, inRun)| ==> IsKeyChar(Dashed(text, inRun)[i]) || Dashed(text, inRun)[i] == '-'
    decreases |text|
  {
    if text != [] {
      DashedIsSafe(text[1..], !IsKeyChar(text[0]));
    }
  }

  ghost predicate DashOrKey(text: string) { forall i :: 0 <= i < |text| ==> IsKeyChar(text[i]) || text[i] == '-' }

  lemma {:induction false} TrimLeftIs(text: string)
    requires DashOrKey(text)
    ensures DashOrKey(TrimLeft(text)) && (TrimLeft(text) != [] ==> TrimLeft(text)[0] != '-')
    decreases |text|
  {
    if text != [] && text[0] == '-' {
      TrimLeftIs(text[1..]);
    }
  }

  lemma {:induction false} TrimRightIs(text: string)
    requires DashOrKey(text)
    ensures var r := TrimRight(text);
            DashOrKey(r) && r <= text && (r != [] ==> r[|r| - 1] != '-')
    decreases |text|
  {
    if text != [] && text[|text| - 1] == '-' {
      TrimRightIs(text[..|text| - 1]);
    }
  }

  // The base key, independently: the runs of letters and digits, joined by dashes.

  predicate OnlyKeyChars(text: string) { forall i :: 0 <= i < |text| ==> 'a' <= text[i] <= 'z' || '0' <= text[i] <= '9' }

  predicate NoKeyChars(text: string) { forall i :: 0 <= i < |text| ==> !('a' <= text[i] <= 'z' || '0' <= text[i] <= '9') }

  /** `gaps[0] runs[0] gaps[1] runs[1] ... gaps[n]`. */
  function Woven(gaps: seq<string>, runs: seq<string>): string
    requires |gaps| == |runs| + 1
  {
    if runs == [] then gaps[0] else gaps[0] + (runs[0] + Woven(gaps[1..], runs[1..]))
  }

  /** `runs` are the maximal runs of letters and digits in `text`, `gaps` what stands around them. */
  ghost predicate Cut(text: string, gaps: seq<string>, runs: seq<string>) {
    && |gaps| == |runs| + 1 && text == Woven(gaps, runs)
    && (forall i :: 0 <= i < |runs| ==> runs[i] != "" && OnlyKeyChars(runs[i]))
    && (forall i :: 0 <= i < |gaps| ==> NoKeyChars(gaps[i]))
    && (forall i :: 0 < i < |runs| ==> gaps[i] != "")
  }

  function JoinedByDashes(runs: seq<string>): string
    requires runs != []
  {
    if |runs| == 1 then runs[0] else runs[0] + ("-" + JoinedByDashes(runs[1..]))
  }

  /** Every text has such runs. */
  lemma {:induction false} CutExists(text: string) returns (gaps: seq<string>, runs: seq<string>)
    ensures Cut(text, gaps, runs)
    decreases |text|
  {
    if text == "" {
      gaps, runs := [""], [];
    } else {
      var c := text[0];
      var g, r := CutExists(text[1..]);
      assert text == [c] + text[1..];
      if !IsKeyChar(c) {
        gaps, runs := g[0 := [c] + g[0]], r;
        assert gaps[1..] == g[1..];
      } else if g[0] == "" && r != [] {
        gaps, runs := g, r[0 := [c] + r[0]];
        assert runs[1..] == r[1..];
        assert text == Woven(gaps, runs) by {
          assert Woven(g, r) == "" + (r[0] + Woven(g[1..], r[1..]));
        }
      } else {
        gaps, runs := [""] + g, [[c]] + r;
        assert gaps[1..] == g && runs[1..] == r;
      }
    }
  }

  lemma {:induction false} DashedGap(gap: string, rest: string, inRun: bool)
    requires NoKeyChars(gap)
    ensures Dashed(gap + rest, inRun) ==
            if gap == "" then Dashed(rest, inRun) else (if inRun then "" else "-") + Dashed(rest, true)
    decreases |gap|
  {
    if gap == "" {
      assert gap + rest == rest;
    } else {
      assert (gap + rest)[1..] == gap[1..] + rest;
      DashedGap(gap[1..], rest, true);
    }
  }

  lemma {:induction false} DashedRun(run: string, rest: string, inRun: bool)
    requires OnlyKeyChars(run) && run != ""
    ensures Dashed(run + rest, inRun) == run + Dashed(rest, false)
    decreases |run|
  {
    assert (run + rest)[1..] == run[1..] + rest;
    if |run| == 1 {
      assert run[1..] + rest == rest && run == [run[0]];
    } else {
      DashedRun(run[1..], rest, false);
      assert run == [run[0]] + run[1..];
    }
  }

  function DashIf(condition: bool): string { if condition then "-" else "" }

  lemma {:induction false} DashedWoven(text: string, gaps: seq<string>, runs: seq<string>)
    requires Cut(text, gaps, runs)
    ensures Dashed(text, false) == DashIf(gaps[0] != "") +
              if runs == [] then "" else JoinedByDashes(runs) + DashIf(gaps[|runs|] != "")
    decreases |runs|
  {
    hide OnlyKeyChars, NoKeyChars, Dashed;
    DashedNothing();
    if runs == [] {
      DashedGap(gaps[0], "", false);
      assert gaps[0] + "" == text;
    } else {
      var rest := Woven(gaps[1..], runs[1..]);
      CutTail(text, gaps, runs);
      DashedGap(gaps[0], runs[0] + rest, false);
      DashedRun(runs[0], rest, false);
      DashedRun(runs[0], rest, true);
      DashedWoven(rest, gaps[1..], runs[1..]);
      Assemble(gaps, runs, Dashed(rest, false));
    }
  }

  lemma DashedNothing()
    ensures Dashed("", false) == "" && Dashed("", true) == ""
  {
  }

  lemma CutTail(text: string, gaps: seq<string>, runs: seq<string>)
    requires Cut(text, gaps, runs) && runs != []
    ensures Cut(Woven(gaps[1..], runs[1..]), gaps[1..], runs[1..])
    ensures text == gaps[0] + (runs[0] + Woven(gaps[1..], runs[1..]))
  {
    hide OnlyKeyChars, NoKeyChars;
  }

  lemma Assemble(gaps: seq<string>, runs: seq<string>, tail: string)
    requires |gaps| == |runs| + 1 && runs != [] && forall i :: 0 < i < |runs| ==> gaps[i] != ""
    requires tail == DashIf(gaps[1] != "") +
                     if |runs| == 1 then "" else JoinedByDashes(runs[1..]) + DashIf(gaps[|runs|] != "")
    ensures runs[0] + tail == JoinedByDashes(runs) + DashIf(gaps[|runs|] != "")
  {
    if |runs| > 1 {
      assert tail == "-" + (JoinedByDashes(runs[1..]) + DashIf(gaps[|runs|] != ""));
    }
  }

  lemma {:induction false} JoinedEnds(runs: seq<string>)
    requires runs != [] && forall i :: 0 <= i < |runs| ==> runs[i] != "" && OnlyKeyChars(runs[i])
    ensures var joined := JoinedByDashes(runs);
            joined != "" && joined[0] != '-' && joined[|joined| - 1] != '-'
    decreases |runs|
  {
    if |runs| > 1 {
      JoinedEnds(runs[1..]);
    }
  }

  lemma TrimBoth(left: bool, middle: string, right: bool)
    requires middle != "" ==> middle[0] != '-' && middle[|middle| - 1] != '-'
    requires middle == "" ==> !right
    ensures TrimRight(TrimLeft(DashIf(left) + (middle + DashIf(right)))) == middle
  {
    hide TrimLeft, TrimRight, DashIf;
    var tail := middle + DashIf(right);
    TailStart(middle, right);
    TrimLead(left, tail);
    TrimTrail(middle, right);
  }

  lemma TailStart(middle: string, right: bool)
    requires middle != "" ==> middle[0] != '-'
    requires middle == "" ==> !right
    ensures var tail := middle + DashIf(right); tail == "" || tail[0] != '-'
  {
  }

  lemma TrimLead(left: bool, tail: string)
    requires tail == "" || tail[0] != '-'
    ensures TrimLeft(DashIf(left) + tail) == tail
  {
    assert ("-" + tail)[1..] == tail && "" + tail == tail;
  }

  lemma TrimTrail(middle: string, right: bool)
    requires middle == "" || middle[|middle| - 1] != '-'
    ensures TrimRight(middle + DashIf(right)) == middle
  {
    assert (middle + "-")[..|middle|] == middle && middle + "" == middle;
  }

  /** The base key is the maximal runs of letters and digits in the lower-cased name, joined by single dashes, and
    * `other` exactly if there are none. */
  lemma BaseKeyIsRuns(family: string, lower: string -> string, gaps: seq<string>, runs: seq<string>)
    requires Cut(lower(family), gaps, runs)
    ensures BaseKey(family, lower) == if runs == [] then "other" else JoinedByDashes(runs)
  {
    hide Dashed, TrimLeft, TrimRight, OnlyKeyChars, NoKeyChars, JoinedByDashes;
    DashedWoven(lower(family), gaps, runs);
    if runs == [] {
      TrimBoth(gaps[0] != "", "", false);
      assert DashIf(gaps[0] != "") + "" == DashIf(gaps[0] != "") + ("" + DashIf(false));
    } else {
      JoinedEnds(runs);
      TrimBoth(gaps[0] != "", JoinedByDashes(runs), gaps[|runs|] != "");
    }
  }

  /** A base key may stand in a DOM id: letters, digits and inner dashes, and never empty. */
  lemma BaseIsSafe(family: string, lower: string -> string)
    ensures Safe(BaseKey(family, lower))
  {
    var dashed := Dashed(lower(family), false);
    DashedIsSafe(lower(family), false);
    TrimLeftIs(dashed);
    TrimRightIs(TrimLeft(dashed));
    hide Dashed, TrimLeft, TrimRight;
  }

  lemma SuffixedIsSafe(base: string, n: nat)
    requires Safe(base)
    ensures Safe(Suffixed(base, n))
  {
    var digits := PrintNat(n);
    assert forall i :: 0 <= i < |digits| ==> digits[i] in digits;
    hide PrintNat;
  }

  /** Different suffixes make different keys, none of them the base. */
  lemma SuffixesDiffer(base: string, m: nat, n: nat)
    ensures Suffixed(base, m) == Suffixed(base, n) <==> m == n
    ensures Suffixed(base, n) != base
  {
    hide PrintNat;
    if Suffixed(base, m) == Suffixed(base, n) {
      assert Suffixed(base, m)[|base| + 1..] == PrintNat(m) && Suffixed(base, n)[|base| + 1..] == PrintNat(n);
      PrintInjective(m, n);
    }
  }

  /** `key` is the first of `base`, `base-2`, `base-3`, ... that is not used. */
  ghost predicate FirstFree(base: string, key: string, used: set<string>) {
    && key !in used
    && (key == base
        || (base in used && exists n :: 2 <= n && key == Suffixed(base, n) && TakenBelow(base, n, used)))
  }

  ghost predicate TakenBelow(base: string, n: nat, used: set<string>) {
    forall m :: 2 <= m < n ==> Suffixed(base, m) in used
  }

  function KeySet(keys: seq<string>): set<string> { set k | k in keys }

  ghost predicate FollowRule(families: seq<string>, lower: string -> string, keys: seq<string>) {
    && |keys| == |families|
    && forall i :: 0 <= i < |keys| ==> FirstFree(BaseKey(families[i], lower), keys[i], KeySet(keys[..i]))
  }

  /** The key of every family is the first free one after the families before it. Each is tried against finitely many used
    * keys, so the search ends. */
  method MetricFamilyKeys(families: seq<string>, lower: string -> string) returns (keys: seq<string>)
    ensures FollowRule(families, lower, keys) && Distinct(keys)
  {
    keys := [];
    var used: set<string> := {};
    hide BaseKey, Suffixed, FirstFree;
    for f := 0 to |families|
      invariant |keys| == f && used == KeySet(keys) && Distinct(keys)
      invariant forall i :: 0 <= i < f ==> FirstFree(BaseKey(families[i], lower), keys[i], KeySet(keys[..i]))
    {
      var base := BaseKey(families[f], lower);
      var key := FreshKey(base, used);
      ghost var before := keys;
      used := used + {key};
      keys := keys + [key];
      assert forall i :: 0 <= i < f ==> keys[..i] == before[..i];
      assert keys[..f] == before;
      FreshIsNew(base, key, KeySet(before));
    }
  }

  lemma FreshIsNew(base: string, key: string, used: set<string>)
    requires FirstFree(base, key, used)
    ensures key !in used
  {
  }

  /** The loop over suffixes; `tried` are the used keys it has stepped over. */
  method FreshKey(base: string, used: set<string>) returns (key: string)
    ensures FirstFree(base, key, used)
  {
    key := base;
    var suffix := 2;
    ghost var tried: set<string> := {};
    hide Suffixed;
    while key in used
      invariant suffix >= 2 && tried <= used && key !in tried
      invariant key == if suffix == 2 then base else Suffixed(base, suffix - 1)
      invariant suffix > 2 ==> base in used && TakenBelow(base, suffix - 1, used)
      invariant forall k :: k in tried ==> k == base || exists m :: 2 <= m < suffix - 1 && k == Suffixed(base, m)
      decreases |used - tried|
    {
      tried := tried + {key};
      SuffixesDiffer(base, suffix, suffix);
      forall m | 2 <= m < suffix
        ensures Suffixed(base, m) != Suffixed(base, suffix)
      {
        SuffixesDiffer(base, m, suffix);
      }
      key := Suffixed(base, suffix);
      suffix := suffix + 1;
    }
  }

  lemma RuleOfPrefix(families: seq<string>, lower: string -> string, keys: seq<string>)
    requires FollowRule(families, lower, keys) && families != []
    ensures FollowRule(families[..|families| - 1], lower, keys[..|keys| - 1])
  {
    hide FirstFree, BaseKey, KeySet;
    var init := keys[..|keys| - 1];
    assert forall i :: 0 <= i < |init| ==> init[..i] == keys[..i];
  }

  /** The rule leaves no choice: the keys are determined by the families. */
  lemma {:induction false} KeysAreDetermined(families: seq<string>, lower: string -> string, a: seq<string>, b: seq<string>)
    requires FollowRule(families, lower, a) && FollowRule(families, lower, b)
    ensures a == b
    decreases |families|
  {
    hide FirstFree, BaseKey, KeySet;
    if families != [] {
      var n := |families| - 1;
      RuleOfPrefix(families, lower, a);
      RuleOfPrefix(families, lower, b);
      KeysAreDetermined(families[..n], lower, a[..n], b[..n]);
      OneFirstFree(BaseKey(families[n], lower), a[n], b[n], KeySet(a[..n]));
      assert a == a[..n] + [a[n]] && b == b[..n] + [b[n]];
    }
  }

  lemma OneFirstFree(base: string, a: string, b: string, used: set<string>)
    requires FirstFree(base, a, used) && FirstFree(base, b, used)
    ensures a == b
  {
    hide Suffixed;
    if base in used {
      var m :| 2 <= m && a == Suffixed(base, m) && TakenBelow(base, m, used);
      var n :| 2 <= n && b == Suffixed(base, n) && TakenBelow(base, n, used);
      assert m == n;
    }
  }

  /** Every key may stand in a DOM id. */
  lemma KeysAreSafe(families: seq<string>, lower: string -> string, keys: seq<string>, i: nat)
    requires FollowRule(families, lower, keys) && i < |keys|
    ensures Safe(keys[i])
  {
    var base := BaseKey(families[i], lower);
    BaseIsSafe(families[i], lower);
    hide Suffixed, BaseKey;
    if keys[i] != base {
      var n :| 2 <= n && keys[i] == Suffixed(base, n) && TakenBelow(base, n, KeySet(keys[..i]));
      SuffixedIsSafe(base, n);
    }
  }
}
