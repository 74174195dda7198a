/** The image rollover plugin (src/plugins/Rollover.js): from the current
    `src` of an image it derives the name of its "on" image (the postfix,
    `_on` by default, inserted before the extension) and of its "off" image,
    and swaps the image's `src` between the two on hover, on activation and
    on deactivation. DOM selection, option merging, class names other than
    the two flags below, event namespacing and preloading are not modelled. */
module Rollover {
  import opened JsString

  /** What `_createRolloverData` derives from one image (its DOM handles left out). */
  datatype RolloverData = RolloverData(onSrc: string, offSrc: string, isOffImg: bool)

  /** The extension: the suffix of `src` from its last dot on, or the whole `src`
      when it has no dot (`ExtIsSubstring` ties this to the `substring` call). */
  function Ext(src: string): (ext: string)
    ensures |ext| <= |src|
  {
    var i := LastIndexOf(src, ".");
    if i < 0 then src else src[i..]
  }

  /** `src.substring(src.lastIndexOf("."), src.length)`: `substring` clamps the -1
      of a `src` without a dot to 0, so the whole `src` is taken. */
  lemma ExtIsSubstring(src: string)
    ensures Ext(src) == Substring(src, LastIndexOf(src, "."), |src|)
  {
  }

  /** The extension is a suffix of `src`. */
  lemma ExtIsSuffix(src: string)
    ensures Ext(src) == src[|src| - |Ext(src)|..]
  {
  }

  /** `_createRolloverData`: an image whose `src` contains `postfix + ext` anywhere is
      taken to be the on image, and its off name drops the first such occurrence's
      postfix; otherwise the on name inserts the postfix before the first occurrence
      of the extension. */
  function CreateRolloverData(src: string, postfix: string): (d: RolloverData)
    ensures src == d.onSrc || src == d.offSrc
    ensures !d.isOffImg ==> src == d.onSrc
    ensures d.isOffImg <==> src == d.offSrc
  {
    var ext := Ext(src);
    var onImage := LastIndexOf(src, postfix + ext) > -1;
    var onSrc := if onImage then src else Replace(src, ext, postfix + ext);
    var offSrc := if onImage then Replace(src, postfix + ext, ext) else src;
    RolloverData(onSrc, offSrc, src == offSrc)
  }

  /* The extension
  ---------------------------------------------------------------------*/

  /** Without a dot, the extension is the whole `src`. */
  lemma ExtWithoutDot(src: string)
    requires '.' !in src
    ensures Ext(src) == src
  {
    forall i ensures !OccursAt(src, ".", i) {
      OccursAtChar(src, '.', i);
    }
    LastIndexOfIsLast(src, ".");
  }

  /** With a dot, the extension is the suffix that starts at the last dot. */
  lemma ExtAtLastDot(src: string)
    requires '.' in src
    ensures var e := Ext(src);
      |e| >= 1 && e[0] == '.' && '.' !in e[1..] && src == src[..|src| - |e|] + e
  {
    var k := LastDot(src);
    var e := Ext(src);
    assert e == src[k..];
    forall j | 0 <= j < |e| - 1 ensures e[1..][j] != '.' {
      assert e[1..][j] == src[k + 1 + j];
    }
    assert src == src[..k] + src[k..];
  }

  /** Where a `src` with a dot has its last dot. */
  lemma LastDot(src: string) returns (k: nat)
    requires '.' in src
    ensures k == LastIndexOf(src, ".") && k < |src| && src[k] == '.'
    ensures forall j :: k < j < |src| ==> src[j] != '.'
  {
    var i :| 0 <= i < |src| && src[i] == '.';
    OccursAtChar(src, '.', i);
    LastIndexOfIsLast(src, ".");
    k := LastIndexOf(src, ".");
    OccursAtChar(src, '.', k);
    forall j | k < j < |src| ensures src[j] != '.' {
      OccursAtChar(src, '.', j);
    }
  }

  /** The extension of `a + b` is `b` when `b` starts with the only dot it contains. */
  lemma ExtOfSplit(a: string, b: string)
    requires |b| >= 1 && b[0] == '.' && '.' !in b[1..]
    ensures Ext(a + b) == b
  {
    var s := a + b;
    OccursAtChar(s, '.', |a|);
    LastIndexOfIsLast(s, ".");
    var k := LastIndexOf(s, ".");
    OccursAtChar(s, '.', k);
    forall t | |a| < t < |s| ensures s[t] != '.' {
      assert s[t] == b[1..][t - |a| - 1];
    }
    assert k == |a|;
    assert s[|a|..] == b;
  }

  /* The two names
  ---------------------------------------------------------------------*/

  /** The two branches of `_createRolloverData`. */
  lemma OnBranch(src: string, postfix: string)
    requires LastIndexOf(src, postfix + Ext(src)) > -1
    ensures CreateRolloverData(src, postfix).onSrc == src
    ensures CreateRolloverData(src, postfix).offSrc == Replace(src, postfix + Ext(src), Ext(src))
  {
  }

  lemma OffBranch(src: string, postfix: string)
    requires LastIndexOf(src, postfix + Ext(src)) == -1
    ensures CreateRolloverData(src, postfix).offSrc == src
    ensures CreateRolloverData(src, postfix).onSrc == Replace(src, Ext(src), postfix + Ext(src))
  {
  }

  lemma ExtNoDollar(src: string)
    requires '$' !in src
    ensures '$' !in Ext(src)
  {
    ExtIsSuffix(src);
    NoDollarInSuffix(src, |src| - |Ext(src)|);
  }

  lemma NoDollarInPrefix(s: string, i: nat)
    requires '$' !in s && i <= |s|
    ensures '$' !in s[..i]
  {
    forall j | 0 <= j < i ensures s[..i][j] != '$' {
      assert s[..i][j] == s[j];
    }
  }

  lemma NoDollarInSuffix(s: string, i: nat)
    requires '$' !in s && i <= |s|
    ensures '$' !in s[i..]
  {
    forall j | 0 <= j < |s| - i ensures s[i..][j] != '$' {
      assert s[i..][j] == s[i + j];
    }
  }

  /** An on image keeps its name, and its off name drops the postfix from the first
      occurrence of `postfix + ext`. */
  lemma OnImageNames(src: string, postfix: string, k: nat)
    requires '$' !in src
    requires OccursAt(src, postfix + Ext(src), k)
    requires forall i :: 0 <= i < k ==> !OccursAt(src, postfix + Ext(src), i)
    ensures var e := Ext(src); var d := CreateRolloverData(src, postfix);
      d.onSrc == src && d.offSrc == src[..k] + e + src[k + |postfix| + |e|..]
  {
    var e := Ext(src);
    ExtNoDollar(src);
    LastIndexOfFound(src, postfix + e, k);
    OnBranch(src, postfix);
    ReplaceFirst(src, postfix + e, e, k);
  }

  /** An off image keeps its name, and its on name inserts the postfix before the first
      occurrence of the extension. */
  lemma OffImageNames(src: string, postfix: string, k: nat)
    requires '$' !in src && '$' !in postfix
    requires forall i :: !OccursAt(src, postfix + Ext(src), i)
    requires OccursAt(src, Ext(src), k)
    requires forall i :: 0 <= i < k ==> !OccursAt(src, Ext(src), i)
    ensures var e := Ext(src); var d := CreateRolloverData(src, postfix);
      d.offSrc == src && d.onSrc == src[..k] + postfix + e + src[k + |e|..]
  {
    var e := Ext(src);
    ExtNoDollar(src);
    assert '$' !in postfix + e;
    LastIndexOfAbsent(src, postfix + e);
    OffBranch(src, postfix);
    ReplaceFirst(src, e, postfix + e, k);
  }

  /** With a non-empty postfix, an image counts as off exactly when its `src` does not
      contain `postfix + ext`. */
  lemma IsOffImgIffNoOnName(src: string, postfix: string)
    requires postfix != [] && '$' !in src && '$' !in postfix
    ensures CreateRolloverData(src, postfix).isOffImg <==>
            forall i :: !OccursAt(src, postfix + Ext(src), i)
  {
    var k := IndexOf(src, postfix + Ext(src));
    IndexOfIsFirst(src, postfix + Ext(src));
    LastIndexOfIsLast(src, postfix + Ext(src));
    if k >= 0 {
      OnImageNames(src, postfix, k);
      assert |CreateRolloverData(src, postfix).offSrc| < |src|;
    }
  }

  /* The round trip between the two names
  ---------------------------------------------------------------------*/

  /** The conditions under which an off image's name survives the trip to its on name and
      back: it has an extension that occurs in it only as its suffix, and the postfix is a
      plain word without a dot, without `$` and not starting with a character of the
      extension. */
  predicate PlainOffName(src: string, postfix: string) {
    '.' in src && '$' !in src &&
    postfix != [] && '.' !in postfix && '$' !in postfix && postfix[0] !in Ext(src) &&
    (forall i | 0 <= i <= |src| :: OccursAt(src, Ext(src), i) ==> i == |src| - |Ext(src)|) &&
    CreateRolloverData(src, postfix).isOffImg
  }

  /** The on name of a plain off image appends the postfix to its stem; deriving from
      that on name classifies it as on, keeps it, and gives back the original off name. */
  lemma OffOnRoundTrip(src: string, postfix: string)
    requires PlainOffName(src, postfix)
    ensures var e := Ext(src); var on := CreateRolloverData(src, postfix).onSrc;
      on == src[..|src| - |e|] + postfix + e &&
      var d := CreateRolloverData(on, postfix);
      !d.isOffImg && d.onSrc == on && d.offSrc == src
  {
    var e := Ext(src);
    var pre := src[..|src| - |e|];
    ExtAtLastDot(src);
    PlainOnName(src, postfix);
    NoDollarInSuffix(src, |pre|);
    NoDollarInPrefix(src, |pre|);
    OnNameBack(pre, postfix, e);
  }

  /** The on name of a plain off image is its stem, the postfix and its extension. */
  lemma PlainOnName(src: string, postfix: string)
    requires PlainOffName(src, postfix)
    ensures CreateRolloverData(src, postfix).onSrc == src[..|src| - |Ext(src)|] + postfix + Ext(src)
  {
    var e := Ext(src);
    var k := |src| - |e|;
    ExtIsSuffix(src);
    SuffixShape(src, k, postfix, e);
    IsOffImgIffNoOnName(src, postfix);
    OffImageNames(src, postfix, k);
  }

  lemma SuffixShape(s: string, k: nat, a: string, e: string)
    requires k + |e| == |s| && e == s[k..]
    requires forall i | 0 <= i <= |s| :: OccursAt(s, e, i) ==> i == k
    ensures OccursAt(s, e, k)
    ensures forall i :: 0 <= i < k ==> !OccursAt(s, e, i)
    ensures s[..k] + a + e + s[k + |e|..] == s[..k] + a + e
  {
    assert s[k..k + |e|] == e;
    assert s[k + |e|..] == [];
  }

  /** From the on name `pre + postfix + e`, the derivation comes back to `pre + e`. */
  lemma OnNameBack(pre: string, postfix: string, e: string)
    requires |e| >= 1 && e[0] == '.' && '.' !in e[1..]
    requires postfix != [] && '.' !in postfix && postfix[0] !in e
    requires '$' !in pre && '$' !in postfix && '$' !in e
    requires forall q :: OccursAt(pre + e, e, q) ==> q == |pre|
    ensures var on := pre + postfix + e; var d := CreateRolloverData(on, postfix);
      !d.isOffImg && d.onSrc == on && d.offSrc == pre + e
  {
    OnNameShape(pre, postfix, e);
    ExtOfSplit(pre + postfix, e);
    NoEarlierOnName(pre, postfix, e);
    OnImageNames(pre + postfix + e, postfix, |pre|);
  }

  lemma OnNameShape(pre: string, postfix: string, e: string)
    requires '$' !in pre && '$' !in postfix && '$' !in e && postfix != []
    ensures var on := pre + postfix + e;
      on == (pre + postfix) + e && '$' !in on && OccursAt(on, postfix + e, |pre|) &&
      on[..|pre|] + e + on[|pre| + |postfix| + |e|..] == pre + e && |on| > |pre + e|
  {
    var on := pre + postfix + e;
    assert on[|pre|..|pre| + |postfix + e|] == postfix + e;
    assert on[..|pre|] == pre;
    assert on[|pre| + |postfix| + |e|..] == [];
  }

  /** In `pre + postfix + e`, the first occurrence of `postfix + e` is the one ending it. */
  lemma NoEarlierOnName(pre: string, postfix: string, e: string)
    requires |e| >= 1 && e[0] == '.'
    requires postfix != [] && '.' !in postfix && postfix[0] !in e
    requires forall q :: OccursAt(pre + e, e, q) ==> q == |pre|
    ensures forall j :: 0 <= j < |pre| ==> !OccursAt(pre + postfix + e, postfix + e, j)
  {
    forall j | 0 <= j < |pre| ensures !OccursAt(pre + postfix + e, postfix + e, j) {
      EarlierOnName(pre, postfix, e, j);
    }
  }

  /** An occurrence of `postfix + e` in `pre + postfix + e` that starts inside `pre`
      puts its `e` inside `pre + e` too, unless it makes the first character of the
      postfix a character of `e`. */
  lemma EarlierOnName(pre: string, postfix: string, e: string, j: nat)
    requires |e| >= 1 && e[0] == '.' && postfix != [] && '.' !in postfix && j < |pre|
    ensures OccursAt(pre + postfix + e, postfix + e, j) ==>
      (j + |postfix| < |pre| && OccursAt(pre + e, e, j + |postfix|)) || postfix[0] in e
  {
    var on := pre + postfix + e;
    var name := postfix + e;
    if OccursAt(on, name, j) {
      var q := j + |postfix|;
      assert on[j + |postfix|] == name[|postfix|];
      assert q < |pre|;
      if q + |e| <= |pre| {
        forall t | 0 <= t < |e| ensures (pre + e)[q + t] == e[t] {
          assert on[j + (|postfix| + t)] == name[|postfix| + t];
        }
      } else {
        var m := |pre| - q;
        assert on[j + (|postfix| + m)] == name[|postfix| + m];
        assert on[|pre|] == postfix[0];
        assert e[m] == postfix[0];
      }
    }
  }

  /** A `src` without a dot is always an off image, and its on name puts the postfix in
      front of the whole `src`. */
  lemma DotlessName(src: string, postfix: string)
    requires '.' !in src && '$' !in src && '$' !in postfix && postfix != []
    ensures var d := CreateRolloverData(src, postfix);
      d.isOffImg && d.offSrc == src && d.onSrc == postfix + src
  {
    DotlessExt(src, postfix);
    SpliceAtStart(src, postfix);
    OffImageNames(src, postfix, 0);
  }

  lemma SpliceAtStart(s: string, a: string)
    ensures s[..0] + a + s + s[0 + |s|..] == a + s
  {
  }

  lemma DotlessExt(src: string, postfix: string)
    requires '.' !in src && postfix != []
    ensures Ext(src) == src && OccursAt(src, Ext(src), 0)
    ensures forall i :: !OccursAt(src, postfix + Ext(src), i)
  {
    ExtWithoutDot(src);
    assert src[0..|src|] == src;
  }

  /** Without a dot the trip fails: `btn` becomes `_onbtn`, and that name is again taken
      for an off image, whose off name is itself. */
  lemma RoundTripNeedsDot(src: string, postfix: string)
    requires '.' !in src && '.' !in postfix && '$' !in src && '$' !in postfix && postfix != []
    ensures CreateRolloverData(src, postfix).onSrc == postfix + src
    ensures var d := CreateRolloverData(postfix + src, postfix);
      d.isOffImg && d.offSrc == postfix + src != src
  {
    DotlessName(src, postfix);
    var on := postfix + src;
    assert '.' !in on && '$' !in on;
    DotlessName(on, postfix);
    assert |on| > |src|;
  }

  /** A postfix that starts with a character of the extension can fail the trip even when
      the extension occurs only as the suffix: the on name of `bc.a.ab` with postfix `bc`
      is `bc.abc.ab`, whose off name is `.abc.ab`. */
  lemma RoundTripNeedsFreshPostfix(src: string, postfix: string)
    requires |src| == 7 && src[0] == 'b' && src[1] == 'c' && src[2] == '.' && src[3] == 'a'
    requires src[4] == '.' && src[5] == 'a' && src[6] == 'b'
    requires |postfix| == 2 && postfix[0] == 'b' && postfix[1] == 'c'
    ensures forall i :: OccursAt(src, Ext(src), i) ==> i == |src| - |Ext(src)|
    ensures postfix[0] in Ext(src)
    ensures var d := CreateRolloverData(src, postfix);
      d.isOffImg && d.onSrc == src[..4] + postfix + src[4..] &&
      CreateRolloverData(d.onSrc, postfix).offSrc == d.onSrc[2..] != src
  {
    FreshPostfixOffImage(src, postfix);
    assert Ext(src)[2] == postfix[0];
    var on := src[..4] + postfix + src[4..];
    FreshPostfixOnImage(on, postfix);
    assert on[2..][0] != src[0];
  }

  /** `bc.a.ab`, spelled out, with postfix `bc`: an off image with extension `.ab`. */
  lemma FreshPostfixOffImage(src: string, postfix: string)
    requires |src| == 7 && src[0] == 'b' && src[1] == 'c' && src[2] == '.' && src[3] == 'a'
    requires src[4] == '.' && src[5] == 'a' && src[6] == 'b'
    requires |postfix| == 2 && postfix[0] == 'b' && postfix[1] == 'c'
    ensures Ext(src) == src[4..] && forall i :: OccursAt(src, Ext(src), i) ==> i == 4
    ensures var d := CreateRolloverData(src, postfix);
      d.isOffImg && d.onSrc == src[..4] + postfix + src[4..]
  {
    var e := src[4..];
    assert src == src[..4] + e;
    ExtOfSplit(src[..4], e);
    forall i ensures !OccursAt(src, postfix + e, i) {
      if 0 <= i && i + 5 <= 7 {
        assert src[i..i + 5][1] != (postfix + e)[1] || src[i..i + 5][4] != (postfix + e)[4];
      }
    }
    forall i | 0 <= i < 4 ensures !OccursAt(src, e, i) {
      assert src[i..i + 3][0] != '.' || src[i..i + 3][2] != 'b';
    }
    assert '$' !in src;
    OffImageNames(src, postfix, 4);
  }

  lemma FreshPostfixOnShape(on: string, postfix: string)
    requires |on| == 9 && on[0] == 'b' && on[1] == 'c' && on[2] == '.' && on[3] == 'a'
    requires on[4] == 'b' && on[5] == 'c' && on[6] == '.' && on[7] == 'a' && on[8] == 'b'
    requires |postfix| == 2 && postfix[0] == 'b' && postfix[1] == 'c'
    ensures var e := on[6..];
      on == on[..6] + e && |e| >= 1 && e[0] == '.' && '.' !in e[1..] && '$' !in on &&
      OccursAt(on, postfix + e, 0) && on[..0] + e + on[5..] == on[2..]
  {
    var e := on[6..];
    assert on == on[..6] + e;
    assert on[0..5] == postfix + e;
    assert on[..0] + e + on[5..] == on[2..];
  }

  /** `bc.abc.ab`, spelled out, with postfix `bc`: an on image, because `bc.ab` starts it,
      so its off name drops the first `bc`. */
  lemma FreshPostfixOnImage(on: string, postfix: string)
    requires |on| == 9 && on[0] == 'b' && on[1] == 'c' && on[2] == '.' && on[3] == 'a'
    requires on[4] == 'b' && on[5] == 'c' && on[6] == '.' && on[7] == 'a' && on[8] == 'b'
    requires |postfix| == 2 && postfix[0] == 'b' && postfix[1] == 'c'
    ensures CreateRolloverData(on, postfix).offSrc == on[2..]
  {
    FreshPostfixOnShape(on, postfix);
    ExtOfSplit(on[..6], on[6..]);
    OnImageNames(on, postfix, 0);
  }
}
