/** The human-readable list of XSAVE state components: the names of the
    recognised components whose bits are set in a 64-bit feature mask, in bit
    order, separated by single spaces. */
module Xsave {
  /** A recognised state component: its bit in the mask and its printed name. */
  datatype Feature = Feature(bit: bv64, name: string)

  /** The recognised components, in the order they are tested. */
  const FEATURES: seq<Feature> :=
    [Feature(0x1, "x87"), Feature(0x2, "SSE"), Feature(0x4, "AVX"),
     Feature(0x8, "MPX-BNDREGS"), Feature(0x10, "MPX-BNDCSR"), Feature(0x20, "AVX512-opmask"),
     Feature(0x40, "AVX512-ZMM_Hi256"), Feature(0x80, "AVX512-Hi16_ZMM"), Feature(0x100, "PT"),
     Feature(0x200, "PKRU"), Feature(0x2000, "HDC")]

  /** Every recognised bit: 0x1 through 0x200, and 0x2000. */
  const RECOGNISED: bv64 := 0x23FF

  /** The component's name when its bit is set in features, and nothing otherwise. */
  function Entry(features: bv64, f: Feature): seq<string>
  {
    if features & f.bit != 0 then [f.name] else []
  }

  /** The names of the components among the first k of the table that are set in
      features, in table order. */
  function Listed(features: bv64, table: seq<Feature>, k: nat): (names: seq<string>)
    requires k <= |table|
    ensures |names| <= k
  {
    if k == 0 then [] else Listed(features, table, k - 1) + Entry(features, table[k - 1])
  }

  /** The names of every recognised component set in features. */
  function FeatureList(features: bv64): seq<string>
  {
    Listed(features, FEATURES, |FEATURES|)
  }

  /** Each name followed by one space. */
  function Terminated(names: seq<string>): string
  {
    if names == [] then "" else Terminated(names[..|names| - 1]) + (names[|names| - 1] + " ")
  }

  /** The names separated by single spaces. */
  function Join(names: seq<string>): string
  {
    if |names| <= 1 then (if names == [] then "" else names[0])
    else Join(names[..|names| - 1]) + " " + names[|names| - 1]
  }

  /** The fields of s, split at every space (so "" is one empty field and "a b" two). */
  function Split(s: string): (fields: seq<string>)
    ensures |fields| > 0
  {
    if s == [] then [""]
    else
      var rest := Split(s[..|s| - 1]);
      if s[|s| - 1] == ' ' then rest + [""]
      else rest[..|rest| - 1] + [rest[|rest| - 1] + [s[|s| - 1]]]
  }

  /** A string without spaces. */
  predicate SpaceFree(w: string)
  {
    forall i :: 0 <= i < |w| ==> w[i] != ' '
  }

  /** A name that survives a trip through Join and Split. */
  predicate IsWord(w: string)
  {
    |w| > 0 && SpaceFree(w)
  }

  predicate AllWords(names: seq<string>)
  {
    forall i :: 0 <= i < |names| ==> IsWord(names[i])
  }

  /** The list of the components set in features: the recognised names in bit order,
      separated by single spaces. */
  method XsaveFeatureString(features: bv64) returns (s: string)
    ensures s == Join(FeatureList(features))
  {
    var ret := "";
    ret := AppendIfSet(features, ret, FEATURES[0]);
    assert ret == Words(features, FEATURES, 1);
    ret := AppendIfSet(features, ret, FEATURES[1]);
    assert ret == Words(features, FEATURES, 2);
    ret := AppendIfSet(features, ret, FEATURES[2]);
    assert ret == Words(features, FEATURES, 3);
    ret := AppendIfSet(features, ret, FEATURES[3]);
    assert ret == Words(features, FEATURES, 4);
    ret := AppendIfSet(features, ret, FEATURES[4]);
    assert ret == Words(features, FEATURES, 5);
    ret := AppendIfSet(features, ret, FEATURES[5]);
    assert ret == Words(features, FEATURES, 6);
    ret := AppendIfSet(features, ret, FEATURES[6]);
    assert ret == Words(features, FEATURES, 7);
    ret := AppendIfSet(features, ret, FEATURES[7]);
    assert ret == Words(features, FEATURES, 8);
    ret := AppendIfSet(features, ret, FEATURES[8]);
    assert ret == Words(features, FEATURES, 9);
    ret := AppendIfSet(features, ret, FEATURES[9]);
    assert ret == Words(features, FEATURES, 10);
    ret := AppendIfSet(features, ret, FEATURES[10]);
    assert ret == Words(features, FEATURES, 11);
    RenderedListed(features, FEATURES, |FEATURES|);
    s := DropTrailingSpace(ret, FeatureList(features));
  }

  /** What the test of a component appends: its name and a space when its bit is set. */
  function Word(features: bv64, f: Feature): string
  {
    if features & f.bit != 0 then f.name + " " else ""
  }

  /** One test of the chain: the component's name and a space are appended when
      its bit is set. */
  method AppendIfSet(features: bv64, ret: string, f: Feature) returns (r: string)
    ensures r == ret + Word(features, f)
  {
    r := ret;
    if features & f.bit != 0 {
      r := r + (f.name + " ");
    }
  }

  /** The final trim: a non-empty list loses its trailing space. */
  method DropTrailingSpace(ret: string, ghost names: seq<string>) returns (s: string)
    requires ret == Terminated(names)
    ensures s == Join(names)
  {
    TerminatedJoin(names);
    s := ret;
    if |s| > 0 {
      s := s[..|s| - 1];
    }
  }

  /** What the first k tests of the chain append, in order. */
  function Words(features: bv64, table: seq<Feature>, k: nat): string
    requires k <= |table|
  {
    if k == 0 then "" else Words(features, table, k - 1) + Word(features, table[k - 1])
  }

  /** The chain of tests renders the listed names, each followed by a space. */
  lemma {:induction false} RenderedListed(features: bv64, table: seq<Feature>, k: nat)
    requires k <= |table|
    ensures Words(features, table, k) == Terminated(Listed(features, table, k))
    decreases k
  {
    if k > 0 {
      assert Words(features, table, k) == Words(features, table, k - 1) + Word(features, table[k - 1]);
      RenderedListed(features, table, k - 1);
      var names := Listed(features, table, k - 1);
      var next := Listed(features, table, k);
      assert next == names + Entry(features, table[k - 1]);
      if features & table[k - 1].bit != 0 {
        assert next[..|names|] == names;
      } else {
        assert next == names;
      }
    }
  }

  /** The space-terminated list is the joined list plus one space. */
  lemma {:induction false} TerminatedJoin(names: seq<string>)
    ensures names == [] ==> Terminated(names) == "" == Join(names)
    ensures names != [] ==> Terminated(names) == Join(names) + " "
    decreases |names|
  {
    if |names| > 1 {
      var init := names[..|names| - 1];
      TerminatedJoin(init);
    }
  }

  /** Appending a space opens a new, empty field. */
  lemma SplitSpace(p: string)
    ensures Split(p + " ") == Split(p) + [""]
  {
    assert (p + " ")[..|p|] == p;
  }

  /** Appending space-free text extends the last field. */
  lemma {:induction false} SplitExtend(p: string, w: string)
    requires SpaceFree(w)
    ensures var f := Split(p); Split(p + w) == f[..|f| - 1] + [f[|f| - 1] + w]
    decreases |w|
  {
    var f := Split(p);
    if w == [] {
      assert p + w == p;
      assert f[|f| - 1] + w == f[|f| - 1];
      assert f[..|f| - 1] + [f[|f| - 1]] == f;
    } else {
      var v, c := w[..|w| - 1], w[|w| - 1];
      assert SpaceFree(v) by {
        forall i | 0 <= i < |v| ensures v[i] != ' ' {
          assert v[i] == w[i];
        }
      }
      SplitExtend(p, v);
      assert w == v + [c];
      assert p + w == (p + v) + [c];
      SplitChar(p + v, c);
      ExtendLast(f, v, c);
    }
  }

  /** A character other than a space extends the last field. */
  lemma SplitChar(s: string, c: char)
    requires c != ' '
    ensures var f := Split(s); Split(s + [c]) == f[..|f| - 1] + [f[|f| - 1] + [c]]
  {
    assert (s + [c])[..|s|] == s;
  }

  /** Extending the last field by v and then by c extends it by v + [c]. */
  lemma ExtendLast(f: seq<string>, v: string, c: char)
    requires |f| > 0
    ensures var g := f[..|f| - 1] + [f[|f| - 1] + v];
            g[..|g| - 1] + [g[|g| - 1] + [c]] == f[..|f| - 1] + [f[|f| - 1] + (v + [c])]
  {
    var g := f[..|f| - 1] + [f[|f| - 1] + v];
    assert g[..|g| - 1] == f[..|f| - 1];
    assert g[|g| - 1] + [c] == f[|f| - 1] + (v + [c]);
  }

  /** Splitting the joined list of words gives the words back. */
  lemma {:induction false} SplitJoin(names: seq<string>)
    requires names != [] && AllWords(names)
    ensures Split(Join(names)) == names
    decreases |names|
  {
    var init, last := names[..|names| - 1], names[|names| - 1];
    assert names == init + [last];
    assert IsWord(last);
    if init == [] {
      SplitSingle(last);
    } else {
      AllWordsPrefix(names);
      SplitJoin(init);
      SplitJoinSnoc(init, last);
    }
  }

  /** A single word splits into itself. */
  lemma SplitSingle(w: string)
    requires IsWord(w)
    ensures Split(Join([w])) == [w]
  {
    SplitExtend("", w);
    assert "" + w == w;
  }

  /** One more word joined after a space becomes one more field. */
  lemma SplitJoinSnoc(init: seq<string>, last: string)
    requires init != [] && Split(Join(init)) == init && IsWord(last)
    ensures Split(Join(init + [last])) == init + [last]
  {
    JoinSnoc(init, last);
    SplitSpace(Join(init));
    FillLast(Join(init) + " ", init, last);
  }

  /** Joining one more name appends a space and the name. */
  lemma JoinSnoc(init: seq<string>, last: string)
    requires init != []
    ensures Join(init + [last]) == Join(init) + " " + last
  {
    var names := init + [last];
    assert names[..|names| - 1] == init;
  }

  lemma AllWordsPrefix(names: seq<string>)
    requires names != [] && AllWords(names)
    ensures AllWords(names[..|names| - 1])
  {
    var init := names[..|names| - 1];
    forall i | 0 <= i < |init| ensures IsWord(init[i]) {
      assert init[i] == names[i];
    }
  }

  /** Space-free text written after a trailing space becomes the last field. */
  lemma FillLast(q: string, init: seq<string>, last: string)
    requires Split(q) == init + [""] && SpaceFree(last)
    ensures Split(q + last) == init + [last]
  {
    SplitExtend(q, last);
    LastFieldFilled(init, last);
  }

  /** Filling the empty last field with a word appends that word. */
  lemma LastFieldFilled(init: seq<string>, last: string)
    ensures var f := init + [""]; f[..|f| - 1] + [f[|f| - 1] + last] == init + [last]
  {
    var f := init + [""];
    assert f[..|f| - 1] == init;
    assert f[|f| - 1] + last == last;
  }

  /** The joined list of words is empty exactly when the list is. */
  lemma {:induction false} JoinEmpty(names: seq<string>)
    requires AllWords(names)
    ensures Join(names) == "" <==> names == []
    decreases |names|
  {
    if |names| > 1 {
      assert IsWord(names[|names| - 1]);
    } else if |names| == 1 {
      assert IsWord(names[0]);
    }
  }

  /** Every recognised name is a word. */
  lemma FeatureNamesAreWords()
    ensures forall i :: 0 <= i < |FEATURES| ==> IsWord(FEATURES[i].name)
  {
  }

  /** Every recognised bit lies inside RECOGNISED. */
  lemma FeatureBitsRecognised()
    ensures forall i :: 0 <= i < |FEATURES| ==> FEATURES[i].bit & RECOGNISED == FEATURES[i].bit
  {
  }

  /** No recognised bit is set exactly when every test fails. */
  lemma NoRecognisedBit(features: bv64)
    ensures features & RECOGNISED == 0 <==> forall i :: 0 <= i < |FEATURES| ==> features & FEATURES[i].bit == 0
  {
    if forall i :: 0 <= i < |FEATURES| ==> features & FEATURES[i].bit == 0 {
      assert features & FEATURES[0].bit == 0 && features & FEATURES[1].bit == 0 && features & FEATURES[2].bit == 0;
      assert features & FEATURES[3].bit == 0 && features & FEATURES[4].bit == 0 && features & FEATURES[5].bit == 0;
      assert features & FEATURES[6].bit == 0 && features & FEATURES[7].bit == 0 && features & FEATURES[8].bit == 0;
      assert features & FEATURES[9].bit == 0 && features & FEATURES[10].bit == 0;
    }
    if features & RECOGNISED == 0 {
      FeatureBitsRecognised();
      forall i | 0 <= i < |FEATURES| ensures features & FEATURES[i].bit == 0 {
        MaskedBit(features, RECOGNISED, FEATURES[i].bit);
      }
    }
  }

  /** A component whose bit lies inside a mask is listed alike with or without the mask. */
  lemma EntryMasked(features: bv64, mask: bv64, f: Feature)
    requires f.bit & mask == f.bit
    ensures Entry(features & mask, f) == Entry(features, f)
  {
  }

  /** A bit inside a mask is tested alike with or without the mask. */
  lemma MaskedBit(features: bv64, mask: bv64, bit: bv64)
    requires bit & mask == bit
    ensures (features & mask) & bit == features & bit
  {
  }

  /** Every listed name is a word when every name of the table is. */
  lemma {:induction false} ListedWords(features: bv64, table: seq<Feature>, k: nat)
    requires k <= |table| && forall i :: 0 <= i < |table| ==> IsWord(table[i].name)
    ensures AllWords(Listed(features, table, k))
    decreases k
  {
    if k > 0 {
      var prev := Listed(features, table, k - 1);
      ListedWords(features, table, k - 1);
      var names := prev + Entry(features, table[k - 1]);
      assert IsWord(table[k - 1].name);
      forall i | 0 <= i < |names| ensures IsWord(names[i]) {
        if i < |prev| {
          assert names[i] == prev[i];
        }
      }
    }
  }

  /** The list is empty exactly when none of the first k bits is set. */
  lemma {:induction false} ListedEmpty(features: bv64, table: seq<Feature>, k: nat)
    requires k <= |table|
    ensures Listed(features, table, k) == [] <==> forall i :: 0 <= i < k ==> features & table[i].bit == 0
  {
    var names := Listed(features, table, k);
    if names == [] {
      forall i | 0 <= i < k
        ensures features & table[i].bit == 0
      {
        if features & table[i].bit != 0 {
          ListedHasSetBits(features, table, k, i);
        }
      }
    } else {
      assert names[0] in names;
      ListedSound(features, table, k, names[0]);
    }
  }

  /** Bits outside a mask that covers every bit of the table never show in the list. */
  lemma {:induction false} ListedIgnoresMasked(features: bv64, mask: bv64, table: seq<Feature>, k: nat)
    requires k <= |table| && forall i :: 0 <= i < |table| ==> table[i].bit & mask == table[i].bit
    ensures Listed(features & mask, table, k) == Listed(features, table, k)
    decreases k
  {
    if k > 0 {
      ListedIgnoresMasked(features, mask, table, k - 1);
      EntryMasked(features, mask, table[k - 1]);
    }
  }

  /** Every listed name is the name of a component whose bit is set. */
  lemma {:induction false} ListedSound(features: bv64, table: seq<Feature>, k: nat, name: string)
    requires k <= |table| && name in Listed(features, table, k)
    ensures exists i :: 0 <= i < k && features & table[i].bit != 0 && table[i].name == name
    decreases k
  {
    var prev := Listed(features, table, k - 1);
    if name in prev {
      ListedSound(features, table, k - 1, name);
    } else {
      assert features & table[k - 1].bit != 0 && table[k - 1].name == name;
    }
  }

  /** A set bit puts its name in the list. */
  lemma {:induction false} ListedHasSetBits(features: bv64, table: seq<Feature>, k: nat, j: nat)
    requires j < k <= |table| && features & table[j].bit != 0
    ensures table[j].name in Listed(features, table, k)
    decreases k
  {
    var prev := Listed(features, table, k - 1);
    if j < k - 1 {
      ListedHasSetBits(features, table, k - 1, j);
    } else {
      assert (prev + [table[j].name])[|prev|] == table[j].name;
    }
  }

  /** The printed list is empty exactly when no recognised bit is set. */
  lemma FeatureStringEmpty(features: bv64)
    ensures Join(FeatureList(features)) == "" <==> features & RECOGNISED == 0
  {
    FeatureNamesAreWords();
    ListedWords(features, FEATURES, |FEATURES|);
    JoinEmpty(FeatureList(features));
    ListedEmpty(features, FEATURES, |FEATURES|);
    NoRecognisedBit(features);
  }

  /** Splitting a non-empty printed list at its spaces gives back the names of the
      set components. */
  lemma FeatureStringSplits(features: bv64)
    requires features & RECOGNISED != 0
    ensures Split(Join(FeatureList(features))) == FeatureList(features)
  {
    FeatureNamesAreWords();
    ListedWords(features, FEATURES, |FEATURES|);
    ListedEmpty(features, FEATURES, |FEATURES|);
    NoRecognisedBit(features);
    SplitJoin(FeatureList(features));
  }

  /** Bits outside the recognised ones do not change the list. */
  lemma FeatureListMasked(features: bv64)
    ensures FeatureList(features & RECOGNISED) == FeatureList(features)
  {
    FeatureBitsRecognised();
    ListedIgnoresMasked(features, RECOGNISED, FEATURES, |FEATURES|);
  }

  /** Every recognised component whose bit is set is named in the list. */
  lemma FeatureListComplete(features: bv64, i: nat)
    requires i < |FEATURES| && features & FEATURES[i].bit != 0
    ensures FEATURES[i].name in FeatureList(features)
  {
    ListedHasSetBits(features, FEATURES, |FEATURES|, i);
  }

  /** Every name in the list is the name of a recognised component whose bit is set. */
  lemma FeatureListSound(features: bv64, name: string)
    requires name in FeatureList(features)
    ensures exists i :: 0 <= i < |FEATURES| && features & FEATURES[i].bit != 0 && FEATURES[i].name == name
  {
    ListedSound(features, FEATURES, |FEATURES|, name);
  }
}
