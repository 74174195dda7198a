/** The ECMAScript string built-ins that the rollover plugin relies on,
    with their edge cases: `lastIndexOf` and `indexOf` answer -1 for an
    absent search string, `substring` clamps and orders its bounds, and
    `replace` with a string pattern rewrites the first occurrence only,
    expanding the `$` patterns of its replacement string. Strings are
    sequences of `char`. */
module JsString {

  /** `pat` occurs in `s` at index `i`. */
  predicate OccursAt(s: string, pat: string, i: int) {
    0 <= i && i + |pat| <= |s| && forall j :: 0 <= j < |pat| ==> s[i + j] == pat[j]
  }

  /** The same, stated with a slice. */
  lemma OccursAtSlice(s: string, pat: string, i: int)
    ensures OccursAt(s, pat, i) <==> 0 <= i && i + |pat| <= |s| && s[i..i + |pat|] == pat
  {
    if 0 <= i && i + |pat| <= |s| {
      if OccursAt(s, pat, i) {
        assert s[i..i + |pat|] == pat;
      } else {
        var j :| 0 <= j < |pat| && s[i + j] != pat[j];
        assert s[i..i + |pat|][j] != pat[j];
      }
    }
  }

  /** The last occurrence at or before index `k`, or -1. */
  function LastIndexFrom(s: string, pat: string, k: int): (r: int)
    ensures r == -1 || (0 <= r <= k && OccursAt(s, pat, r))
    decreases k + 1
  {
    if k < 0 then -1
    else if OccursAt(s, pat, k) then k
    else LastIndexFrom(s, pat, k - 1)
  }

  lemma {:induction false} LastIndexFromIsLast(s: string, pat: string, k: int)
    ensures forall i :: LastIndexFrom(s, pat, k) < i <= k ==> !OccursAt(s, pat, i)
    decreases k + 1
  {
    if k >= 0 && !OccursAt(s, pat, k) {
      LastIndexFromIsLast(s, pat, k - 1);
    }
  }

  /** `s.lastIndexOf(pat)`: the greatest index where `pat` occurs, or -1 when it does not. */
  function LastIndexOf(s: string, pat: string): (r: int)
    ensures r == -1 || (0 <= r <= |s| - |pat| && OccursAt(s, pat, r))
  {
    LastIndexFrom(s, pat, |s| - |pat|)
  }

  lemma LastIndexOfIsLast(s: string, pat: string)
    ensures var r := LastIndexOf(s, pat);
      (r == -1 <==> forall i :: !OccursAt(s, pat, i)) &&
      forall i :: OccursAt(s, pat, i) ==> i <= r
  {
    LastIndexFromIsLast(s, pat, |s| - |pat|);
  }

  /** The first occurrence at or after index `k`, or -1. */
  function IndexFrom(s: string, pat: string, k: nat): (r: int)
    ensures r == -1 || (k <= r && OccursAt(s, pat, r))
    decreases |s| - k
  {
    if k + |pat| > |s| then -1
    else if OccursAt(s, pat, k) then k
    else IndexFrom(s, pat, k + 1)
  }

  lemma {:induction false} IndexFromIsFirst(s: string, pat: string, k: nat)
    ensures forall i :: k <= i && OccursAt(s, pat, i) ==> 0 <= IndexFrom(s, pat, k) <= i
    decreases |s| - k
  {
    if k + |pat| <= |s| && !OccursAt(s, pat, k) {
      IndexFromIsFirst(s, pat, k + 1);
    }
  }

  lemma LastIndexOfFound(s: string, pat: string, k: int)
    requires OccursAt(s, pat, k)
    ensures LastIndexOf(s, pat) >= k
  {
    LastIndexOfIsLast(s, pat);
  }

  lemma LastIndexOfAbsent(s: string, pat: string)
    requires forall i :: !OccursAt(s, pat, i)
    ensures LastIndexOf(s, pat) == -1
  {
  }

  /** `s.indexOf(pat)`: the least index where `pat` occurs, or -1 when it does not. */
  function IndexOf(s: string, pat: string): (r: int)
    ensures r == -1 || OccursAt(s, pat, r)
  {
    IndexFrom(s, pat, 0)
  }

  lemma IndexOfIsFirst(s: string, pat: string)
    ensures var r := IndexOf(s, pat);
      (r == -1 <==> forall i :: !OccursAt(s, pat, i)) &&
      forall i :: OccursAt(s, pat, i) ==> 0 <= r <= i
  {
    IndexFromIsFirst(s, pat, 0);
  }

  /** An index clamped into 0..len, as `substring` does with its arguments. */
  function ClampIndex(i: int, len: nat): (r: nat)
    ensures r <= len
    ensures 0 <= i <= len ==> r == i
  {
    if i < 0 then 0 else if i > len then len else i
  }

  /** `s.substring(start, end)`: both bounds clamped into range, then taken in increasing order. */
  function Substring(s: string, start: int, end: int): (r: string)
    ensures 0 <= start <= end <= |s| ==> r == s[start..end]
    ensures 0 <= end <= start <= |s| ==> r == s[end..start]
    ensures start <= 0 && |s| <= end ==> r == s
    ensures start < 0 && 0 <= end <= |s| ==> r == s[..end]
    ensures 0 <= start <= |s| <= end ==> r == s[start..]
  {
    var from := ClampIndex(start, |s|);
    var to := ClampIndex(end, |s|);
    if from <= to then s[from..to] else s[to..from]
  }

  /** The replacement text of `replace` for a match of `matched` that has `before`
      to its left and `after` to its right: `$$` stands for `$`, `$&` for the match,
      `` $` `` for `before`, `$'` for `after`; every other character is literal
      (a string pattern has no capture groups, so `$1` and `$<` are literal too). */
  function Substitution(template: string, matched: string, before: string, after: string): (r: string)
    ensures '$' !in template ==> r == template
  {
    SubstitutionFrom(template, 0, matched, before, after)
  }

  /** The replacement text for the part of `template` from index `i` on. */
  function SubstitutionFrom(template: string, i: nat, matched: string, before: string, after: string): (r: string)
    requires i <= |template|
    ensures (forall j | i <= j < |template| :: template[j] != '$') ==> r == template[i..]
    decreases |template| - i
  {
    if i == |template| then []
    else if i + 1 < |template| && template[i] == '$' && IsDollarCode(template[i + 1]) then
      DollarText(template[i + 1], matched, before, after) + SubstitutionFrom(template, i + 2, matched, before, after)
    else
      [template[i]] + SubstitutionFrom(template, i + 1, matched, before, after)
  }

  /** The characters that, after a `$`, name a piece of text. */
  predicate IsDollarCode(c: char) {
    c == '$' || c == '&' || c == '`' || c == '\''
  }

  /** The text that `$c` stands for. */
  function DollarText(c: char, matched: string, before: string, after: string): (r: string)
    requires IsDollarCode(c)
    ensures c == '$' ==> r == "$"
    ensures c == '&' ==> r == matched
    ensures c == '`' ==> r == before
    ensures c == '\'' ==> r == after
  {
    if c == '$' then "$" else if c == '&' then matched else if c == '`' then before else after
  }

  /** `s.replace(pattern, replacement)` with a string pattern: the first occurrence only;
      `ReplaceAt` and `ReplaceAbsent` state what it does. */
  function Replace(s: string, pattern: string, replacement: string): (r: string)
  {
    var k := IndexOf(s, pattern);
    if k < 0 then s
    else
      var before, after := s[..k], s[k + |pattern|..];
      before + Substitution(replacement, pattern, before, after) + after
  }

  /** Replacing a pattern that does not occur leaves the string as it is. */
  lemma ReplaceAbsent(s: string, pattern: string, replacement: string)
    requires forall i :: !OccursAt(s, pattern, i)
    ensures Replace(s, pattern, replacement) == s
  {
    IndexOfIsFirst(s, pattern);
  }

  /** A replacement without `$` is spliced in, literally, at the first occurrence. */
  lemma ReplaceFirst(s: string, pattern: string, replacement: string, k: nat)
    requires '$' !in replacement
    requires OccursAt(s, pattern, k)
    requires forall i :: 0 <= i < k ==> !OccursAt(s, pattern, i)
    ensures Replace(s, pattern, replacement) == s[..k] + replacement + s[k + |pattern|..]
  {
    IndexOfIsFirst(s, pattern);
    assert IndexOf(s, pattern) == k;
  }

  /** `$&` in the replacement re-inserts the match, so the string is unchanged. */
  lemma ReplaceWithMatch(s: string, pattern: string)
    ensures Replace(s, pattern, "$&") == s
  {
    var k := IndexOf(s, pattern);
    if k >= 0 {
      CodeTemplate('&', pattern, s[..k], s[k + |pattern|..]);
      assert s[k..k + |pattern|] == pattern by { OccursAtSlice(s, pattern, k); }
      assert s[..k] + s[k..k + |pattern|] + s[k + |pattern|..] == s;
    }
  }

  /** `$$` in the replacement puts a single `$` at the first occurrence. */
  lemma ReplaceWithDollar(s: string, pattern: string, k: nat)
    requires OccursAt(s, pattern, k)
    requires forall i :: 0 <= i < k ==> !OccursAt(s, pattern, i)
    ensures Replace(s, pattern, "$$") == s[..k] + "$" + s[k + |pattern|..]
  {
    ReplaceAt(s, pattern, "$$", k);
    CodeTemplate('$', pattern, s[..k], s[k + |pattern|..]);
  }

  /** `` $` `` in the replacement puts the text before the first occurrence in its place. */
  lemma ReplaceWithBefore(s: string, pattern: string, k: nat)
    requires OccursAt(s, pattern, k)
    requires forall i :: 0 <= i < k ==> !OccursAt(s, pattern, i)
    ensures Replace(s, pattern, "$`") == s[..k] + s[..k] + s[k + |pattern|..]
  {
    ReplaceAt(s, pattern, "$`", k);
    CodeTemplate('`', pattern, s[..k], s[k + |pattern|..]);
  }

  /** `$'` in the replacement puts the text after the first occurrence in its place. */
  lemma ReplaceWithAfter(s: string, pattern: string, k: nat)
    requires OccursAt(s, pattern, k)
    requires forall i :: 0 <= i < k ==> !OccursAt(s, pattern, i)
    ensures Replace(s, pattern, "$'") == s[..k] + s[k + |pattern|..] + s[k + |pattern|..]
  {
    ReplaceAt(s, pattern, "$'", k);
    CodeTemplate('\'', pattern, s[..k], s[k + |pattern|..]);
  }

  /** At the first occurrence `k`, the replacement text takes the place of the pattern. */
  lemma ReplaceAt(s: string, pattern: string, replacement: string, k: nat)
    requires OccursAt(s, pattern, k)
    requires forall i :: 0 <= i < k ==> !OccursAt(s, pattern, i)
    ensures Replace(s, pattern, replacement) ==
      s[..k] + Substitution(replacement, pattern, s[..k], s[k + |pattern|..]) + s[k + |pattern|..]
  {
    IndexOfIsFirst(s, pattern);
    assert IndexOf(s, pattern) == k;
  }

  /** The two-character template `$c` stands for the text that `c` names. */
  lemma CodeTemplate(c: char, matched: string, before: string, after: string)
    requires IsDollarCode(c)
    ensures Substitution(['$', c], matched, before, after) == DollarText(c, matched, before, after)
  {
    assert SubstitutionFrom(['$', c], 2, matched, before, after) == [];
  }

  /** A one-character pattern occurs exactly where that character stands. */
  lemma OccursAtChar(s: string, c: char, i: int)
    ensures OccursAt(s, [c], i) <==> 0 <= i < |s| && s[i] == c
  {
    if 0 <= i < |s| {
      if s[i] == c {
        forall j | 0 <= j < 1 ensures s[i + j] == [c][j] {
          assert j == 0;
        }
      } else {
        assert s[i + 0] != [c][0];
      }
    }
  }
}
