/**
  The two operations of java.lang.String that the death-message resolver
  relies on: `replace(CharSequence, CharSequence)`, a literal, left-to-right,
  non-overlapping replace-all, and `toLowerCase()` applied to enum constant
  names.
 */
module JavaString {
  import opened Wrappers

  /** `pat` occurs in `s` starting at index `i`. */
  predicate OccursAt(s: string, pat: string, i: int)
  {
    0 <= i && i + |pat| <= |s| && s[i..i + |pat|] == pat
  }

  /** `s.contains(pat)`. */
  predicate Contains(s: string, pat: string)
  {
    exists i :: 0 <= i <= |s| && OccursAt(s, pat, i)
  }

  /** `s.indexOf(pat, from)`: the first occurrence of `pat` at or after `from`. */
  function IndexOfFrom(s: string, pat: string, from: nat): (r: Option<nat>)
    ensures r.Some? ==> from <= r.value && OccursAt(s, pat, r.value)
    ensures r.Some? ==> forall j :: from <= j < r.value ==> !OccursAt(s, pat, j)
    ensures r.None? ==> forall j :: from <= j ==> !OccursAt(s, pat, j)
    decreases |s| - from
  {
    if from + |pat| > |s| then None
    else if s[from..from + |pat|] == pat then Some(from)
    else IndexOfFrom(s, pat, from + 1)
  }

  /** `s.indexOf(pat)`. */
  function IndexOf(s: string, pat: string): (r: Option<nat>)
    ensures r.Some? ==> OccursAt(s, pat, r.value) && forall j :: 0 <= j < r.value ==> !OccursAt(s, pat, j)
    ensures r.None? <==> !Contains(s, pat)
  {
    IndexOfFrom(s, pat, 0)
  }

  /**
    `s.replace(pat, rep)` for a non-empty target, as the JDK computes it: copy
    up to the first occurrence of `pat`, append `rep`, and go on with the text
    after that occurrence, so the inserted `rep` is never searched again.
   */
  function Replace(s: string, pat: string, rep: string): string
    requires pat != []
    decreases |s|
  {
    match IndexOf(s, pat)
    case None => s
    case Some(j) => s[..j] + rep + Replace(s[j + |pat|..], pat, rep)
  }

  /**
    The same replacement done one character at a time: at each position,
    either `pat` starts there and is replaced, or the character is copied.
   */
  function ReplaceByScan(s: string, pat: string, rep: string): string
    requires pat != []
    decreases |s|
  {
    if |s| < |pat| then s
    else if s[..|pat|] == pat then rep + ReplaceByScan(s[|pat|..], pat, rep)
    else [s[0]] + ReplaceByScan(s[1..], pat, rep)
  }

  // ---- Slices ----

  lemma SliceOfSlice(s: string, i: nat, j: nat, m: nat, p: nat)
    requires i <= j <= |s| && m + p <= j - i
    ensures s[i..j][m..m + p] == s[i + m..i + m + p]
  {
    var a, b := s[i..j][m..m + p], s[i + m..i + m + p];
    assert forall x :: 0 <= x < p ==> a[x] == b[x];
  }

  lemma DropOfDrop(s: string, k: nat, i: nat)
    requires k + i <= |s|
    ensures s[k..][i..] == s[k + i..]
  {
    var a, b := s[k..][i..], s[k + i..];
    assert forall x :: 0 <= x < |a| ==> a[x] == b[x];
  }

  lemma AppendAssoc(a: string, b: string, c: string)
    ensures a + (b + c) == a + b + c
  {
  }

  // ---- replace ----

  /** The occurrence at `j` with none before it is the one `indexOf` finds. */
  lemma FirstOccurrence(s: string, pat: string, j: nat)
    requires OccursAt(s, pat, j)
    requires forall m :: 0 <= m < j ==> !OccursAt(s, pat, m)
    ensures IndexOf(s, pat) == Some(j)
  {
    var r := IndexOf(s, pat);
    assert r.Some?;
  }

  /** A string in which `pat` does not occur is returned unchanged. */
  lemma ReplaceWithoutOccurrence(s: string, pat: string, rep: string)
    requires pat != [] && !Contains(s, pat)
    ensures Replace(s, pat, rep) == s
  {
    assert IndexOf(s, pat).None?;
  }

  /** Where `pat` occurs, the replacement text appears in the result. */
  lemma ReplaceInsertsReplacement(s: string, pat: string, rep: string)
    requires pat != [] && Contains(s, pat)
    ensures Contains(Replace(s, pat, rep), rep)
  {
    var j := IndexOf(s, pat).value;
    var r := s[..j] + rep + Replace(s[j + |pat|..], pat, rep);
    assert r[j..j + |rep|] == rep;
    assert OccursAt(r, rep, j);
  }

  /** `pat` cannot occur in a string that lacks one of its characters. */
  lemma MissingCharacterRulesOutOccurrence(s: string, pat: string, k: nat)
    requires k < |pat| && pat[k] !in s
    ensures !Contains(s, pat)
  {
    forall i | 0 <= i <= |s| && i + |pat| <= |s|
      ensures !OccursAt(s, pat, i)
    {
      assert s[i..i + |pat|][k] == s[i + k];
    }
  }

  /**
    Text before the first occurrence is kept as it is when it cannot start
    `pat`: `(a + pat + b).replace(pat, rep) == a + rep + b.replace(pat, rep)`.
   */
  lemma ReplaceAfterPlainPrefix(a: string, pat: string, b: string, rep: string)
    requires pat != [] && pat[0] !in a
    ensures Replace(a + pat + b, pat, rep) == a + rep + Replace(b, pat, rep)
  {
    var s := a + pat + b;
    forall m | 0 <= m < |a|
      ensures !OccursAt(s, pat, m)
    {
      assert s[m] == a[m];
      if m + |pat| <= |s| {
        assert s[m..m + |pat|][0] == s[m];
      }
    }
    assert s[|a|..|a| + |pat|] == pat;
    FirstOccurrence(s, pat, |a|);
    assert s[|a| + |pat|..] == b;
    assert s[..|a|] == a;
  }

  /** A string that starts with the target and holds no other occurrence has only that one replaced. */
  lemma ReplaceLeadingOccurrence(pat: string, b: string, rep: string)
    requires pat != [] && !Contains(b, pat)
    ensures Replace(pat + b, pat, rep) == rep + b
  {
    var s := pat + b;
    assert OccursAt(s, pat, 0) by {
      assert s[0..|pat|] == pat;
    }
    FirstOccurrence(s, pat, 0);
    assert s[..0] == [] && s[|pat|..] == b;
    ReplaceWithoutOccurrence(b, pat, rep);
  }

  /** A string that is exactly the target becomes exactly the replacement. */
  lemma ReplaceWholeString(pat: string, rep: string)
    requires pat != []
    ensures Replace(pat, pat, rep) == rep
  {
    assert pat == [] + pat + [];
    ReplaceAfterPlainPrefix([], pat, [], rep);
    assert IndexOf([], pat).None?;
  }

  /**
    An occurrence of `pat` in `a + sep + b` lies inside `a` or inside `b` when
    `sep` holds neither the first nor the last character of `pat` and one of
    its characters, `sep[k]`, is not in `pat` at all.
   */
  lemma NoOccurrenceAcrossSeparator(a: string, sep: string, b: string, pat: string, k: nat, i: int)
    requires pat != [] && k < |sep|
    requires sep[k] !in pat && pat[0] !in sep && pat[|pat| - 1] !in sep
    requires !Contains(a, pat) && !Contains(b, pat)
    ensures !OccursAt(a + sep + b, pat, i)
  {
    var r := a + sep + b;
    var p := |pat|;
    if 0 <= i && i + p <= |r| {
      if i + p <= |a| {
        assert !OccursAt(a, pat, i);
        assert r[i..i + p] == a[i..i + p];
      } else if i >= |a| + |sep| {
        var i' := i - |a| - |sep|;
        assert !OccursAt(b, pat, i');
        assert r[i..i + p] == b[i'..i' + p];
      } else if i >= |a| {
        // the occurrence would start inside `sep`
        assert r[i] == sep[i - |a|];
        assert r[i..i + p][0] == r[i];
      } else if i + p - 1 < |a| + |sep| {
        // ... or end inside it
        var e := i + p - 1;
        assert r[e] == sep[e - |a|];
        assert r[i..i + p][p - 1] == r[e];
      } else {
        // ... or cover all of it, `sep[k]` included
        var m := |a| + k;
        assert r[m] == sep[k];
        assert r[m] !in pat;
        assert r[i..i + p][m - i] == r[m];
      }
    }
  }

  /** The text before the first occurrence of `pat` holds no occurrence of it. */
  lemma NoOccurrenceBeforeFirst(s: string, pat: string, j: nat)
    requires pat != [] && j <= |s|
    requires forall m :: 0 <= m < j ==> !OccursAt(s, pat, m)
    ensures !Contains(s[..j], pat)
  {
    var h := s[..j];
    forall m | 0 <= m <= |h| && m + |pat| <= |h|
      ensures !OccursAt(h, pat, m)
    {
      assert !OccursAt(s, pat, m);
      SliceOfSlice(s, 0, j, m, |pat|);
      assert s[..j] == s[0..j];
    }
  }

  /** A piece of a string without `tok` holds no `tok` either. */
  lemma NoOccurrenceInSlice(s: string, tok: string, i: nat, j: nat)
    requires i <= j <= |s| && !Contains(s, tok)
    ensures !Contains(s[i..j], tok)
  {
    var h := s[i..j];
    forall m | 0 <= m <= |h| && m + |tok| <= |h|
      ensures !OccursAt(h, tok, m)
    {
      assert !OccursAt(s, tok, i + m);
      SliceOfSlice(s, i, j, m, |tok|);
    }
  }

  /**
    A replacement that holds neither the first nor the last character of
    `pat`, and some character outside `pat`, leaves no occurrence of `pat`
    behind.
   */
  lemma {:induction false} ReplaceEliminates(s: string, pat: string, rep: string, k: nat)
    requires pat != [] && k < |rep|
    requires rep[k] !in pat && pat[0] !in rep && pat[|pat| - 1] !in rep
    ensures !Contains(Replace(s, pat, rep), pat)
    decreases |s|
  {
    match IndexOf(s, pat)
    case None =>
    case Some(j) =>
      NoOccurrenceBeforeFirst(s, pat, j);
      ReplaceAtFirst(s, pat, rep, j);
      var rest := s[j + |pat|..];
      ReplaceEliminates(rest, pat, rep, k);
      var head, tail := s[..j], Replace(rest, pat, rep);
      forall m | 0 <= m <= |head + rep + tail|
        ensures !OccursAt(head + rep + tail, pat, m)
      {
        NoOccurrenceAcrossSeparator(head, rep, tail, pat, k, m);
      }
  }

  /**
    Replacing `pat` does not create a `tok` that was not there, when the
    replacement holds neither the first nor the last character of `tok` and
    some character outside `tok`.
   */
  lemma {:induction false} ReplaceKeepsAbsent(s: string, pat: string, rep: string, tok: string, k: nat)
    requires pat != [] && tok != [] && !Contains(s, tok) && k < |rep|
    requires rep[k] !in tok && tok[0] !in rep && tok[|tok| - 1] !in rep
    ensures !Contains(Replace(s, pat, rep), tok)
    decreases |s|
  {
    match IndexOf(s, pat)
    case None =>
    case Some(j) =>
      ReplaceAtFirst(s, pat, rep, j);
      var rest := s[j + |pat|..];
      NoOccurrenceInSlice(s, tok, 0, j);
      assert s[..j] == s[0..j];
      NoOccurrenceInSlice(s, tok, j + |pat|, |s|);
      assert rest == s[j + |pat|..|s|];
      ReplaceKeepsAbsent(rest, pat, rep, tok, k);
      var head, tail := s[..j], Replace(rest, pat, rep);
      forall m | 0 <= m <= |head + rep + tail|
        ensures !OccursAt(head + rep + tail, tok, m)
      {
        NoOccurrenceAcrossSeparator(head, rep, tail, tok, k, m);
      }
  }

  lemma OccurrenceWitness(r: string, tok: string, i: nat)
    requires OccursAt(r, tok, i)
    ensures Contains(r, tok)
  {
  }

  lemma OccurrenceInPrefix(a: string, b: string, tok: string, i: nat)
    requires OccursAt(a, tok, i)
    ensures OccursAt(a + b, tok, i)
  {
    assert (a + b)[i..i + |tok|] == a[i..i + |tok|];
  }

  lemma OccurrenceInSuffix(a: string, b: string, tok: string, i: nat)
    requires OccursAt(b, tok, i)
    ensures OccursAt(a + b, tok, |a| + i)
  {
    assert (a + b)[|a| + i..|a| + i + |tok|] == b[i..i + |tok|];
  }

  /**
    Two distinct targets of the same length, neither of which holds the
    other's first character after its own first position, never overlap.
   */
  lemma OccurrencesApart(s: string, pat: string, tok: string, i: nat, j: nat)
    requires |tok| == |pat| && tok != pat
    requires forall x :: 1 <= x < |tok| ==> tok[x] != pat[0]
    requires forall x :: 1 <= x < |pat| ==> pat[x] != tok[0]
    requires OccursAt(s, tok, i) && OccursAt(s, pat, j)
    ensures i + |tok| <= j || j + |pat| <= i
  {
    assert forall m :: i <= m < i + |tok| ==> s[m] == tok[m - i] by {
      forall m | i <= m < i + |tok|
        ensures s[m] == tok[m - i]
      {
        assert s[i..i + |tok|][m - i] == s[m];
      }
    }
    assert forall m :: j <= m < j + |pat| ==> s[m] == pat[m - j] by {
      forall m | j <= m < j + |pat|
        ensures s[m] == pat[m - j]
      {
        assert s[j..j + |pat|][m - j] == s[m];
      }
    }
    if tok != [] {
      assert s[i] == tok[0] && s[j] == pat[0];
    }
  }

  /** `replace` copies up to the first occurrence, inserts `rep`, and goes on after it. */
  lemma ReplaceAtFirst(s: string, pat: string, rep: string, j: nat)
    requires pat != [] && IndexOf(s, pat) == Some(j)
    ensures j + |pat| <= |s|
    ensures Replace(s, pat, rep) == s[..j] + rep + Replace(s[j + |pat|..], pat, rep)
  {
  }

  /** An occurrence of `tok` ending by `j` is kept in `s[..j] + rep + tail`. */
  lemma KeptBefore(s: string, tok: string, rep: string, tail: string, i: nat, j: nat)
    requires j <= |s| && OccursAt(s, tok, i) && i + |tok| <= j
    ensures Contains(s[..j] + rep + tail, tok)
  {
    var head := s[..j];
    assert OccursAt(head, tok, i) by {
      SliceOfSlice(s, 0, j, i, |tok|);
      assert head == s[0..j];
    }
    OccurrenceInPrefix(head, rep + tail, tok, i);
    AppendAssoc(head, rep, tail);
    OccurrenceWitness(head + rep + tail, tok, i);
  }

  /** An occurrence of `tok` starting at or after `j2` lies in `s[j2..]`. */
  lemma KeptAfter(s: string, tok: string, i: nat, j2: nat)
    requires j2 <= i && OccursAt(s, tok, i)
    ensures Contains(s[j2..], tok)
  {
    SliceOfSlice(s, j2, |s|, i - j2, |tok|);
    assert s[j2..] == s[j2..|s|];
    OccurrenceWitness(s[j2..], tok, i - j2);
  }

  /** A `tok` in `tail` is a `tok` in `front + tail`. */
  lemma KeptInTail(front: string, tail: string, tok: string)
    requires Contains(tail, tok)
    ensures Contains(front + tail, tok)
  {
    var n :| 0 <= n <= |tail| && OccursAt(tail, tok, n);
    OccurrenceInSuffix(front, tail, tok, n);
    OccurrenceWitness(front + tail, tok, |front| + n);
  }

  /**
    Replacing `pat` keeps an occurrence of another target `tok` that cannot
    overlap an occurrence of `pat`.
   */
  lemma {:induction false} ReplaceKeepsOtherToken(s: string, pat: string, rep: string, tok: string)
    requires pat != [] && |tok| == |pat| && tok != pat
    requires forall x :: 1 <= x < |tok| ==> tok[x] != pat[0]
    requires forall x :: 1 <= x < |pat| ==> pat[x] != tok[0]
    requires Contains(s, tok)
    ensures Contains(Replace(s, pat, rep), tok)
    decreases |s|
  {
    match IndexOf(s, pat)
    case None =>
    case Some(j) =>
      var rest := s[j + |pat|..];
      var tail := Replace(rest, pat, rep);
      assert Replace(s, pat, rep) == s[..j] + rep + tail by {
        ReplaceAtFirst(s, pat, rep, j);
      }
      var i :| 0 <= i <= |s| && OccursAt(s, tok, i);
      assert i + |tok| <= j || j + |pat| <= i by {
        OccurrencesApart(s, pat, tok, i, j);
      }
      if i + |tok| <= j {
        assert Contains(s[..j] + rep + tail, tok) by {
          KeptBefore(s, tok, rep, tail, i, j);
        }
      } else {
        assert Contains(rest, tok) by {
          KeptAfter(s, tok, i, j + |pat|);
        }
        ReplaceKeepsOtherToken(rest, pat, rep, tok);
        assert Contains(s[..j] + rep + tail, tok) by {
          KeptInTail(s[..j] + rep, tail, tok);
        }
      }
  }

  // ---- The scan agrees with the indexOf loop ----

  /** Where `pat` does not start, the scan copies one character. */
  lemma ScanCopiesFirst(s: string, pat: string, rep: string)
    requires pat != [] && |pat| <= |s| && !OccursAt(s, pat, 0)
    ensures ReplaceByScan(s, pat, rep) == [s[0]] + ReplaceByScan(s[1..], pat, rep)
  {
    assert s[..|pat|] == s[0..|pat|];
  }

  /** An occurrence in `s[1..]` at `m` is an occurrence in `s` at `m + 1`. */
  lemma OccurrenceInTail(s: string, pat: string, m: nat)
    requires 1 <= |s| && OccursAt(s[1..], pat, m)
    ensures OccursAt(s, pat, m + 1)
  {
    SliceOfSlice(s, 1, |s|, m, |pat|);
    assert s[1..] == s[1..|s|];
  }

  /** The scan copies a stretch of `s` in which `pat` does not start. */
  lemma {:induction false} ScanSkip(s: string, pat: string, rep: string, j: nat)
    requires pat != [] && j <= |s|
    requires forall m :: 0 <= m < j ==> !OccursAt(s, pat, m)
    ensures ReplaceByScan(s, pat, rep) == s[..j] + ReplaceByScan(s[j..], pat, rep)
    decreases j
  {
    if j == 0 {
      assert s[..0] == [] && s[0..] == s;
    } else if |s| < |pat| {
      assert s[..j] + s[j..] == s;
    } else {
      var t := s[1..];
      ScanCopiesFirst(s, pat, rep);
      forall m | 0 <= m < j - 1
        ensures !OccursAt(t, pat, m)
      {
        if OccursAt(t, pat, m) {
          OccurrenceInTail(s, pat, m);
        }
      }
      ScanSkip(t, pat, rep, j - 1);
      DropOfDrop(s, 1, j - 1);
      assert [s[0]] + t[..j - 1] == s[..j];
      AppendAssoc([s[0]], t[..j - 1], ReplaceByScan(s[j..], pat, rep));
    }
  }

  /** At an occurrence the scan replaces it and goes on after it. */
  lemma ScanAtOccurrence(u: string, pat: string, rep: string)
    requires pat != [] && OccursAt(u, pat, 0)
    ensures ReplaceByScan(u, pat, rep) == rep + ReplaceByScan(u[|pat|..], pat, rep)
  {
    assert u[..|pat|] == u[0..|pat|];
  }

  /** Before the first occurrence the scan copies, then it replaces that occurrence. */
  lemma ScanToFirstOccurrence(s: string, pat: string, rep: string, j: nat)
    requires pat != [] && IndexOf(s, pat) == Some(j)
    ensures ReplaceByScan(s, pat, rep) == s[..j] + rep + ReplaceByScan(s[j + |pat|..], pat, rep)
  {
    var u, rest := s[j..], s[j + |pat|..];
    assert OccursAt(u, pat, 0) by {
      SliceOfSlice(s, j, |s|, 0, |pat|);
      assert u == s[j..|s|];
    }
    var x := ReplaceByScan(rest, pat, rep);
    assert ReplaceByScan(u, pat, rep) == rep + x by {
      ScanAtOccurrence(u, pat, rep);
      DropOfDrop(s, j, |pat|);
    }
    ScanSkip(s, pat, rep, j);
    AppendAssoc(s[..j], rep, x);
  }

  /** Without an occurrence the scan copies the whole string. */
  lemma ScanWithoutOccurrence(s: string, pat: string, rep: string)
    requires pat != [] && IndexOf(s, pat).None?
    ensures ReplaceByScan(s, pat, rep) == s
  {
    ScanSkip(s, pat, rep, |s|);
    assert s[..|s|] == s && s[|s|..] == [];
  }

  /** The JDK's indexOf loop and the character-by-character scan agree on every input. */
  lemma {:induction false} ReplaceIsScan(s: string, pat: string, rep: string)
    requires pat != []
    ensures Replace(s, pat, rep) == ReplaceByScan(s, pat, rep)
    decreases |s|
  {
    match IndexOf(s, pat)
    case None =>
      ScanWithoutOccurrence(s, pat, rep);
    case Some(j) =>
      ScanToFirstOccurrence(s, pat, rep, j);
      ReplaceIsScan(s[j + |pat|..], pat, rep);
  }

  /** `Character.toLowerCase` on the ASCII letters that enum names use. */
  function LowerChar(c: char): char
  {
    if 'A' <= c <= 'Z' then (c as int - 'A' as int + 'a' as int) as char else c
  }

  predicate IsUpperAscii(c: char)
  {
    'A' <= c <= 'Z'
  }

  /** `name.toLowerCase()` for an enum constant name such as `SKELETON`. */
  function Lower(s: string): (r: string)
    ensures |r| == |s|
    ensures forall i :: 0 <= i < |s| ==> r[i] == LowerChar(s[i])
    ensures forall i :: 0 <= i < |r| ==> !IsUpperAscii(r[i])
  {
    if s == [] then [] else [LowerChar(s[0])] + Lower(s[1..])
  }
}
