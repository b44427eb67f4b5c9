/** Term weighting: the comma-separated text becomes a map from trimmed term
    to a rank weight, where earlier tokens weigh more. */
module Terms {
  import opened Text

  /** `[w.strip() for w in ws]`. */
  function StripAll(ws: seq<string>): (ts: seq<string>)
    ensures |ts| == |ws|
  {
    if ws == [] then [] else [Strip(ws[0])] + StripAll(ws[1..])
  }

  lemma {:induction false} StripAllAt(ws: seq<string>, k: int)
    requires 0 <= k < |ws|
    ensures StripAll(ws)[k] == Strip(ws[k])
  {
    if k > 0 {
      StripAllAt(ws[1..], k - 1);
      assert ws[1..][k - 1] == ws[k];
    }
  }

  /** The tokens of `text.split(',')`, each passed through `strip()`; blank
      tokens are kept here, so that positions match the unfiltered split. */
  function Tokens(text: string): seq<string> {
    StripAll(Split(text, ','))
  }

  /** The position of the last occurrence of `t` in `ts`, or -1. */
  function LastIndexOf(ts: seq<string>, t: string): (k: int)
    ensures -1 <= k < |ts|
    ensures k == -1 <==> t !in ts
    ensures k >= 0 ==> ts[k] == t && forall j :: k < j < |ts| ==> ts[j] != t
  {
    if ts == [] then -1
    else if ts[|ts| - 1] == t then |ts| - 1
    else
      assert ts == ts[..|ts| - 1] + [ts[|ts| - 1]];
      LastIndexOf(ts[..|ts| - 1], t)
  }

  lemma LastIndexOfSnoc(ts: seq<string>, x: string, t: string)
    ensures LastIndexOf(ts + [x], t) == if x == t then |ts| else LastIndexOf(ts, t)
  {
    assert (ts + [x])[..|ts|] == ts;
  }

  /** The entries the loop has stored after the tokens `ts`, when `n` tokens
      exist in all: every non-blank token is a key, nothing else is, and a
      key's weight is `n` minus the position of its LAST occurrence (a repeated
      term is overwritten by its later, lower weight). */
  ghost predicate WeightedUpTo(ts: seq<string>, n: int, freq: map<string, int>) {
    (forall t :: t in freq ==> t != "" && t in ts && freq[t] == n - LastIndexOf(ts, t))
    && (forall k :: 0 <= k < |ts| && ts[k] != "" ==> ts[k] in freq)
  }

  /** The weighting rule over all the trimmed tokens: blank tokens still count
      in the token count and in the positions. */
  ghost predicate IsWeighting(ts: seq<string>, freq: map<string, int>) {
    WeightedUpTo(ts, |ts|, freq)
  }

  ghost predicate IsTermWeighting(text: string, freq: map<string, int>) {
    IsWeighting(Tokens(text), freq)
  }

  /** One loop step: storing token `x` at position `|ts|` (when it is not
      blank) extends the rule by one token. */
  lemma WeightedStep(ts: seq<string>, n: int, freq: map<string, int>, x: string)
    requires WeightedUpTo(ts, n, freq)
    ensures WeightedUpTo(ts + [x], n, if x != "" then freq[x := n - |ts|] else freq)
  {
    var ts' := ts + [x];
    var f' := if x != "" then freq[x := n - |ts|] else freq;
    forall t | t in f' ensures t != "" && t in ts' && f'[t] == n - LastIndexOf(ts', t) {
      LastIndexOfSnoc(ts, x, t);
    }
    forall k | 0 <= k < |ts'| && ts'[k] != "" ensures ts'[k] in f' {
      if k < |ts| { assert ts'[k] == ts[k]; }
    }
  }

  /** The step of the loop at position `i` of the tokens. */
  lemma TokenStep(ts: seq<string>, n: int, i: int, freq: map<string, int>)
    requires 0 <= i < |ts|
    requires WeightedUpTo(ts[..i], n, freq)
    ensures WeightedUpTo(ts[..i + 1], n, if ts[i] != "" then freq[ts[i] := n - i] else freq)
  {
    assert ts[..i + 1] == ts[..i] + [ts[i]];
    WeightedStep(ts[..i], n, freq, ts[i]);
  }

  /** The loop of `create_wordcloud` that fills `word_freq`. */
  method WeighTerms(text: string) returns (freq: map<string, int>)
    ensures IsTermWeighting(text, freq)
  {
    var words := Split(text, ',');
    ghost var ts := StripAll(words);
    freq := map[];
    for i := 0 to |words|
      invariant WeightedUpTo(ts[..i], |words|, freq)
    {
      var word := Strip(words[i]);
      StripAllAt(words, i);
      TokenStep(ts, |words|, i, freq);
      if word != "" {
        freq := freq[word := |words| - i];
      }
    }
    assert ts[..|words|] == ts;
  }

  /** The weighting is determined by the tokens: two maps that both satisfy
      the rule are equal. */
  lemma WeightingUnique(ts: seq<string>, f: map<string, int>, g: map<string, int>)
    requires IsWeighting(ts, f) && IsWeighting(ts, g)
    ensures f == g
  {
    assert f.Keys == g.Keys;
  }

  /** Every weight lies in [1, token count], and earlier terms weigh strictly
      more: weight order is the reverse of the order of last occurrences. */
  lemma WeightsFollowPosition(ts: seq<string>, freq: map<string, int>, s: string, t: string)
    requires IsWeighting(ts, freq) && s in freq && t in freq
    ensures 1 <= freq[s] <= |ts|
    ensures freq[s] > freq[t] <==> LastIndexOf(ts, s) < LastIndexOf(ts, t)
  {
  }

  lemma StripAllCons(w: string, ws: seq<string>)
    ensures StripAll([w] + ws) == [Strip(w)] + StripAll(ws)
  {
    assert ([w] + ws)[1..] == ws;
  }

  lemma SplitCatDogBird()
    ensures Split("cat,dog,bird", ',') == ["cat", "dog", "bird"]
  {
    var ts := ["cat", "dog", "bird"];
    JoinCons("dog", ["bird"], ',');
    assert ["dog"] + ["bird"] == ["dog", "bird"];
    JoinCons("cat", ["dog", "bird"], ',');
    assert ["cat"] + ["dog", "bird"] == ts;
    assert Join(ts, ',') == "cat,dog,bird";
    SplitJoin(ts, ',');
  }

  /** Tokens without whitespace at their ends are kept as they are. */
  lemma {:induction false} StripAllKeeps(ws: seq<string>)
    requires forall k :: 0 <= k < |ws| ==> ws[k] == [] || (!IsSpace(ws[k][0]) && !IsSpace(ws[k][|ws[k]| - 1]))
    ensures StripAll(ws) == ws
  {
    if ws != [] {
      StripKeeps(ws[0]);
      StripAllKeeps(ws[1..]);
      assert ws == [ws[0]] + ws[1..];
    }
  }

  lemma StripAllCatDogBird()
    ensures StripAll(["cat", "dog", "bird"]) == ["cat", "dog", "bird"]
  {
    StripAllKeeps(["cat", "dog", "bird"]);
  }

  lemma LastIndicesCatDogBird()
    ensures LastIndexOf(["cat", "dog", "bird"], "cat") == 0
    ensures LastIndexOf(["cat", "dog", "bird"], "dog") == 1
    ensures LastIndexOf(["cat", "dog", "bird"], "bird") == 2
  {
    LastIndexOfSnoc(["cat"], "dog", "cat");
    LastIndexOfSnoc(["cat", "dog"], "bird", "cat");
    LastIndexOfSnoc(["cat", "dog"], "bird", "dog");
    assert ["cat"] + ["dog"] == ["cat", "dog"];
    assert ["cat", "dog"] + ["bird"] == ["cat", "dog", "bird"];
  }

  lemma WeightingCatDogBird()
    ensures IsWeighting(["cat", "dog", "bird"], map["cat" := 3, "dog" := 2, "bird" := 1])
  {
    LastIndicesCatDogBird();
  }

  lemma WeightsCatDogBird(freq: map<string, int>)
    requires IsWeighting(["cat", "dog", "bird"], freq)
    ensures freq == map["cat" := 3, "dog" := 2, "bird" := 1]
  {
    WeightingCatDogBird();
    WeightingUnique(["cat", "dog", "bird"], freq, map["cat" := 3, "dog" := 2, "bird" := 1]);
  }

  /** "cat,dog,bird" gives cat 3, dog 2, bird 1. */
  lemma CatDogBird(freq: map<string, int>)
    requires IsTermWeighting("cat,dog,bird", freq)
    ensures freq == map["cat" := 3, "dog" := 2, "bird" := 1]
  {
    SplitCatDogBird();
    StripAllCatDogBird();
    WeightsCatDogBird(freq);
  }

  lemma SplitBlankAndRepeated()
    ensures Split("a, ,b,a", ',') == ["a", " ", "b", "a"]
  {
    var parts := ["a", " ", "b", "a"];
    JoinCons("b", ["a"], ',');
    assert ["b"] + ["a"] == ["b", "a"];
    JoinCons(" ", ["b", "a"], ',');
    assert [" "] + ["b", "a"] == [" ", "b", "a"];
    JoinCons("a", [" ", "b", "a"], ',');
    assert ["a"] + [" ", "b", "a"] == parts;
    assert Join(parts, ',') == "a, ,b,a";
    SplitJoin(parts, ',');
  }

  lemma StripBlank()
    ensures Strip(" ") == ""
  {
    assert LeadingSpace(" ") == 1;
  }

  lemma StripAllBlankTail()
    ensures StripAll([" ", "b", "a"]) == ["", "b", "a"]
  {
    StripAllKeeps(["b", "a"]);
    StripBlank();
    StripAllCons(" ", ["b", "a"]);
    assert [" "] + ["b", "a"] == [" ", "b", "a"];
  }

  lemma StripAllBlankAndRepeated()
    ensures StripAll(["a", " ", "b", "a"]) == ["a", "", "b", "a"]
  {
    StripAllBlankTail();
    StripKeeps("a");
    StripAllCons("a", [" ", "b", "a"]);
    assert ["a"] + [" ", "b", "a"] == ["a", " ", "b", "a"];
  }

  lemma LastIndicesBlankAndRepeated()
    ensures LastIndexOf(["a", "", "b", "a"], "a") == 3
    ensures LastIndexOf(["a", "", "b", "a"], "b") == 2
  {
    LastIndexOfSnoc(["a", "", "b"], "a", "a");
    LastIndexOfSnoc(["a", "", "b"], "a", "b");
    LastIndexOfSnoc(["a", ""], "b", "b");
    assert ["a", ""] + ["b"] == ["a", "", "b"];
    assert ["a", "", "b"] + ["a"] == ["a", "", "b", "a"];
  }

  lemma WeightingBlankAndRepeated()
    ensures IsWeighting(["a", "", "b", "a"], map["a" := 1, "b" := 2])
  {
    LastIndicesBlankAndRepeated();
  }

  lemma WeightsBlankAndRepeated(freq: map<string, int>)
    requires IsWeighting(["a", "", "b", "a"], freq)
    ensures freq == map["a" := 1, "b" := 2]
  {
    WeightingBlankAndRepeated();
    WeightingUnique(["a", "", "b", "a"], freq, map["a" := 1, "b" := 2]);
  }

  /** "a, ,b,a": the blank token still takes a position, so the count is 4,
      and the repeated "a" keeps the weight of its last position. */
  lemma BlankAndRepeatedTerms(freq: map<string, int>)
    requires IsTermWeighting("a, ,b,a", freq)
    ensures freq == map["a" := 1, "b" := 2]
  {
    SplitBlankAndRepeated();
    StripAllBlankAndRepeated();
    WeightsBlankAndRepeated(freq);
  }
}
