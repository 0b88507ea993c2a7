/** Comma-separated lists of entries, as annotations and ConfigMap values hold them. */
module Text {

  /** White space as strings.TrimSpace understands it. */
  predicate IsSpace(c: char) {
    || c in "\t\n\r "
    || c == '\U{0B}' || c == '\U{0C}' || c == '\U{85}' || c == '\U{A0}' || c == '\U{1680}'
    || '\U{2000}' <= c <= '\U{200A}'
    || c == '\U{2028}' || c == '\U{2029}' || c == '\U{202F}' || c == '\U{205F}' || c == '\U{3000}'
  }

  function TrimLeft(s: string): string {
    if s == "" || !IsSpace(s[0]) then s else TrimLeft(s[1..])
  }

  function TrimRight(s: string): string {
    if s == "" || !IsSpace(s[|s| - 1]) then s else TrimRight(s[..|s| - 1])
  }

  function Trim(s: string): string {
    TrimRight(TrimLeft(s))
  }

  predicate AllSpace(s: string) {
    forall c :: c in s ==> IsSpace(c)
  }

  /** Nothing to trim: no white space at either end. */
  predicate Tight(s: string) {
    s == "" || (!IsSpace(s[0]) && !IsSpace(s[|s| - 1]))
  }

  lemma {:induction false} TrimLeftSplits(s: string) returns (pre: string)
    ensures s == pre + TrimLeft(s) && AllSpace(pre)
    ensures TrimLeft(s) == "" || !IsSpace(TrimLeft(s)[0])
  {
    pre := "";
    if s != "" && IsSpace(s[0]) {
      pre := TrimLeftSplits(s[1..]);
      pre := [s[0]] + pre;
    }
  }

  lemma {:induction false} TrimRightSplits(s: string) returns (post: string)
    ensures s == TrimRight(s) + post && AllSpace(post)
    ensures TrimRight(s) == "" || !IsSpace(TrimRight(s)[|TrimRight(s)| - 1])
  {
    post := "";
    if s != "" && IsSpace(s[|s| - 1]) {
      post := TrimRightSplits(s[..|s| - 1]);
      post := post + [s[|s| - 1]];
    }
  }

  /** Trimming takes white space off the two ends, all of it and nothing else. */
  lemma TrimSplits(s: string) returns (pre: string, post: string)
    ensures s == pre + Trim(s) + post && AllSpace(pre) && AllSpace(post)
    ensures Tight(Trim(s))
  {
    pre := TrimLeftSplits(s);
    post := TrimRightSplits(TrimLeft(s));
  }

  /** There is only one way to do that: what is found between white space is the trimmed text. */
  lemma {:induction false} TrimAround(pre: string, s: string, post: string)
    requires AllSpace(pre) && AllSpace(post) && Tight(s)
    ensures Trim(pre + s + post) == s
    decreases |pre| + |post|
  {
    var padded := pre + s + post;
    if s == "" {
      TrimOfSpace(padded);
    } else if pre != "" {
      assert padded[1..] == pre[1..] + s + post;
      TrimAround(pre[1..], s, post);
    } else if post != "" {
      assert padded[..|padded| - 1] == pre + s + post[..|post| - 1];
      TrimAround(pre, s, post[..|post| - 1]);
    }
  }

  lemma {:induction false} TrimOfSpace(s: string)
    requires AllSpace(s)
    ensures TrimLeft(s) == "" && Trim(s) == ""
  {
    if s != "" {
      TrimOfSpace(s[1..]);
    }
  }

  /** Trimming leaves nothing to trim, and a text with nothing to trim alone. */
  lemma TrimMeaning(s: string)
    requires ',' !in s
    ensures Trim(s) == "" || Clean(Trim(s))
    ensures Clean(s) ==> Trim(s) == s
  {
    var pre, post := TrimSplits(s);
  }

  /** An entry that survives being written into a list and read back: not blank, no comma, no outer space. */
  predicate Clean(s: string) {
    s != "" && !IsSpace(s[0]) && !IsSpace(s[|s| - 1]) && ',' !in s
  }

  predicate AllClean(es: seq<string>) {
    forall e :: e in es ==> Clean(e)
  }

  /** strings.Split on commas: always at least one part. */
  function Split(s: string): (parts: seq<string>)
    ensures parts != []
    ensures forall p :: p in parts ==> ',' !in p
  {
    if s == "" then [""]
    else
      var rest := Split(s[1..]);
      if s[0] == ',' then [""] + rest else [[s[0]] + rest[0]] + rest[1..]
  }

  /** strings.Join with commas. */
  function Join(es: seq<string>): string {
    if es == [] then "" else if |es| == 1 then es[0] else es[0] + "," + Join(es[1..])
  }

  /** The parts of a list that hold something, trimmed. */
  function NonBlank(parts: seq<string>): (es: seq<string>)
    ensures |es| <= |parts|
  {
    if parts == [] then []
    else
      var es, e := NonBlank(parts[..|parts| - 1]), Trim(parts[|parts| - 1]);
      if e == "" then es else es + [e]
  }

  /** The entries of a comma-separated list. */
  function Entries(s: string): seq<string> {
    NonBlank(Split(s))
  }

  lemma {:induction false} SplitComma(e: string, s: string)
    requires ',' !in e
    ensures Split(e + "," + s) == [e] + Split(s)
  {
    if e == "" {
      assert e + "," + s == "," + s;
      assert ("," + s)[1..] == s;
    } else {
      assert (e + "," + s)[1..] == e[1..] + "," + s;
      SplitComma(e[1..], s);
      assert [e[0]] + e[1..] == e;
    }
  }

  lemma {:induction false} SplitWhole(e: string)
    requires ',' !in e
    ensures Split(e) == [e]
  {
    if e != "" {
      SplitWhole(e[1..]);
      assert [e[0]] + e[1..] == e;
    }
  }

  /** Splitting undoes joining, for a non-empty list of comma-free parts. */
  lemma {:induction false} SplitOfJoin(es: seq<string>)
    requires es != [] && forall e :: e in es ==> ',' !in e
    ensures Split(Join(es)) == es
  {
    if |es| == 1 {
      SplitWhole(es[0]);
    } else {
      SplitOfJoin(es[1..]);
      SplitComma(es[0], Join(es[1..]));
      assert es == [es[0]] + es[1..];
    }
  }

  lemma {:induction false} NonBlankOfClean(es: seq<string>)
    requires AllClean(es)
    ensures NonBlank(es) == es
  {
    if es != [] {
      NonBlankOfClean(es[..|es| - 1]);
      assert es[|es| - 1] in es;
      TrimMeaning(es[|es| - 1]);
    }
  }

  /** Reading back a written list returns its entries, the empty list included. */
  lemma EntriesOfJoin(es: seq<string>)
    requires AllClean(es)
    ensures Entries(Join(es)) == es
  {
    if es != [] {
      SplitOfJoin(es);
    }
    NonBlankOfClean(es);
  }

  /** A part of a list as a user may write it: an entry with white space around it. */
  datatype Padded = Padded(pre: string, entry: string, post: string) {
    function Text(): string {
      pre + entry + post
    }

    predicate Valid() {
      AllSpace(pre) && AllSpace(post) && Clean(entry)
    }
  }

  function Texts(ps: seq<Padded>): seq<string> {
    seq(|ps|, i requires 0 <= i < |ps| => ps[i].Text())
  }

  function Bare(ps: seq<Padded>): seq<string> {
    seq(|ps|, i requires 0 <= i < |ps| => ps[i].entry)
  }

  lemma {:induction false} NonBlankOfPadded(ps: seq<Padded>)
    requires forall p :: p in ps ==> p.Valid()
    ensures NonBlank(Texts(ps)) == Bare(ps)
  {
    if ps != [] {
      var n := |ps| - 1;
      NonBlankOfPadded(ps[..n]);
      assert Texts(ps)[..n] == Texts(ps[..n]);
      assert ps[n] in ps;
      TrimAround(ps[n].pre, ps[n].entry, ps[n].post);
    }
  }

  /** White space around the entries of a list does not change what is read from it. */
  lemma EntriesOfPadded(ps: seq<Padded>)
    requires forall p :: p in ps ==> p.Valid()
    ensures Entries(Join(Texts(ps))) == Bare(ps)
  {
    forall t | t in Texts(ps)
      ensures ',' !in t
    {
      var i :| 0 <= i < |ps| && t == ps[i].Text();
      assert ps[i] in ps && !IsSpace(',');
    }
    if ps != [] {
      SplitOfJoin(Texts(ps));
    }
    NonBlankOfPadded(ps);
  }

  lemma {:induction false} NonBlankConcat(xs: seq<string>, ys: seq<string>)
    ensures NonBlank(xs + ys) == NonBlank(xs) + NonBlank(ys)
  {
    if ys == [] {
      assert xs + ys == xs;
    } else {
      var n := |ys| - 1;
      assert (xs + ys)[..|xs + ys| - 1] == xs + ys[..n];
      NonBlankConcat(xs, ys[..n]);
    }
  }

  /** Nor does a part that is blank, wherever it stands. */
  lemma BlankPartsAreSkipped(before: seq<string>, blank: string, after: seq<string>)
    requires before + after != [] && AllSpace(blank)
    requires forall p :: p in before + after ==> ',' !in p
    ensures Entries(Join(before + [blank] + after)) == Entries(Join(before + after))
  {
    assert ',' !in blank by {
      assert !IsSpace(',');
    }
    SplitOfJoin(before + [blank] + after);
    SplitOfJoin(before + after);
    NonBlankConcat(before + [blank], after);
    NonBlankConcat(before, [blank]);
    NonBlankConcat(before, after);
    TrimOfSpace(blank);
    assert NonBlank([blank]) == [] by {
      assert [blank][..0] == [];
    }
  }

  lemma {:induction false} NonBlankIsClean(parts: seq<string>)
    requires forall p :: p in parts ==> ',' !in p
    ensures AllClean(NonBlank(parts))
  {
    if parts != [] {
      NonBlankIsClean(parts[..|parts| - 1]);
      assert parts[|parts| - 1] in parts;
      TrimMeaning(parts[|parts| - 1]);
    }
  }

  /** What is read from any list can be written back unchanged. */
  lemma EntriesClean(s: string)
    ensures AllClean(Entries(s))
    ensures Entries(Join(Entries(s))) == Entries(s)
  {
    NonBlankIsClean(Split(s));
    EntriesOfJoin(Entries(s));
  }

  /** A list of clean entries is blank only when it is empty. */
  lemma JoinBlank(es: seq<string>)
    requires AllClean(es)
    ensures Join(es) == "" <==> es == []
  {
    if es != [] {
      assert es[0] in es;
    }
  }
}
