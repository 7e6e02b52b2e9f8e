/** Tolerant text comparison for canary answers, on ASCII text. */
module Normalize {
  import Seqs

  type ascii = c: char | c as int < 128
  type Text = seq<ascii>

  const SPACE: ascii := ' '

  predicate Alnum(c: ascii) {
    '0' <= c <= '9' || 'A' <= c <= 'Z' || 'a' <= c <= 'z'
  }

  function Lower(c: ascii): ascii {
    if 'A' <= c <= 'Z' then (c as int + 32) as char else c
  }

  function Lowered(s: Text): Text {
    if s == [] then [] else [Lower(s[0])] + Lowered(s[1..])
  }

  /** The length of the alphanumeric run at the head of `s`. */
  function Run(s: Text): (n: nat)
    ensures n <= |s|
    ensures forall i :: 0 <= i < n ==> Alnum(s[i])
    ensures n < |s| ==> !Alnum(s[n])
  {
    if s == [] || !Alnum(s[0]) then 0 else 1 + Run(s[1..])
  }

  /** The maximal alphanumeric runs, lowercased. */
  function Words(s: Text): seq<Text>
    decreases |s|
  {
    if s == [] then []
    else if !Alnum(s[0]) then Words(s[1..])
    else [Lowered(s[..Run(s)])] + Words(s[Run(s)..])
  }

  function Join(words: seq<Text>): Text {
    if words == [] then []
    else if |words| == 1 then words[0]
    else words[0] + ([SPACE] + Join(words[1..]))
  }

  /** What separates a word from the words after it. */
  function Onward(words: seq<Text>): Text {
    if words == [] then [] else [SPACE] + Join(words)
  }

  lemma JoinFirst(w: Text, words: seq<Text>)
    ensures Join([w] + words) == w + Onward(words)
  {
    assert ([w] + words)[1..] == words;
    if words == [] {
      assert w + [] == w;
    }
  }

  function Normal(s: Text): Text {
    Join(Words(s))
  }

  /** What the loop still has to add to `out` for the text left, inside or outside a word. */
  ghost predicate Pending(goal: Text, out: Text, prevSpace: bool, left: Text) {
    if prevSpace then
      && (out != [] ==> out[|out| - 1] == SPACE)
      && goal == if Words(left) == [] && out != [] then out[..|out| - 1] else out + Join(Words(left))
    else
      && out != [] && out[|out| - 1] != SPACE
      && goal == out + (Lowered(left[..Run(left)]) + Onward(Words(left[Run(left)..])))
  }

  lemma PendingLetter(goal: Text, out: Text, prevSpace: bool, left: Text)
    requires Pending(goal, out, prevSpace, left) && left != [] && Alnum(left[0])
    ensures Pending(goal, out + [Lower(left[0])], false, left[1..])
  {
    var n, c, later := Run(left), Lower(left[0]), left[1..];
    assert left[..n][1..] == later[..n - 1] && left[n..] == later[n - 1..];
    var word, onward := Lowered(left[..n]), Onward(Words(left[n..]));
    assert word == [c] + Lowered(later[..n - 1]);
    if prevSpace {
      JoinFirst(word, Words(left[n..]));
    }
    assert goal == out + (word + onward);
    Seqs.Assoc([c], Lowered(later[..n - 1]), onward);
    Seqs.Assoc(out, [c], Lowered(later[..n - 1]) + onward);
  }

  lemma CloseWord(out: Text, words: seq<Text>)
    ensures var spaced := out + [SPACE];
      out + ([] + Onward(words)) == if words == [] then spaced[..|spaced| - 1] else spaced + Join(words)
  {
    if words == [] {
      assert out + ([] + []) == out;
    } else {
      Seqs.Assoc(out, [SPACE], Join(words));
    }
  }

  lemma PendingOther(goal: Text, out: Text, prevSpace: bool, left: Text)
    requires Pending(goal, out, prevSpace, left) && left != [] && !Alnum(left[0])
    ensures Pending(goal, if prevSpace then out else out + [SPACE], true, left[1..])
  {
    if !prevSpace {
      assert left[..0] == [] && left[0..] == left;
      CloseWord(out, Words(left[1..]));
    }
  }

  method NormalizeText(s: Text) returns (out: Text)
    ensures out == Normal(s)
  {
    out := [];
    var prevSpace := true;
    var i := 0;
    assert [] + Normal(s) == Normal(s) && s[0..] == s;
    while i < |s|
      invariant 0 <= i <= |s|
      invariant Pending(Normal(s), out, prevSpace, s[i..])
    {
      assert s[i..][1..] == s[i + 1..];
      if Alnum(s[i]) {
        PendingLetter(Normal(s), out, prevSpace, s[i..]);
        out := out + [Lower(s[i])];
        prevSpace := false;
      } else {
        PendingOther(Normal(s), out, prevSpace, s[i..]);
        if !prevSpace {
          out := out + [SPACE];
          prevSpace := true;
        }
      }
      i := i + 1;
    }
    assert s[i..] == [] && out + [] == out && out + ([] + []) == out;
    if out != [] && out[|out| - 1] == SPACE {
      out := out[..|out| - 1];
    }
  }

  // ------------------------------------------------------------------ canonical form

  predicate Word(w: Text) {
    w != [] && forall i :: 0 <= i < |w| ==> Alnum(w[i]) && Lower(w[i]) == w[i]
  }

  lemma {:induction false} LoweredWord(s: Text)
    requires s != [] && forall i :: 0 <= i < |s| ==> Alnum(s[i])
    ensures Word(Lowered(s))
    ensures Word(s) ==> Lowered(s) == s
  {
    assert Alnum(Lower(s[0])) && Lower(Lower(s[0])) == Lower(s[0]);
    if |s| > 1 {
      LoweredWord(s[1..]);
      if Word(s) {
        assert Word(s[1..]);
      }
    }
  }

  lemma {:induction false} WordsAreWords(s: Text)
    ensures forall i :: 0 <= i < |Words(s)| ==> Word(Words(s)[i])
    decreases |s|
  {
    if s != [] {
      if Alnum(s[0]) {
        LoweredWord(s[..Run(s)]);
        WordsAreWords(s[Run(s)..]);
      } else {
        WordsAreWords(s[1..]);
      }
    }
  }

  lemma {:induction false} RunOfWord(w: Text, rest: Text)
    requires (forall i :: 0 <= i < |w| ==> Alnum(w[i])) && (rest != [] ==> !Alnum(rest[0]))
    ensures Run(w + rest) == |w|
  {
    if w == [] {
      assert w + rest == rest;
    } else {
      Seqs.TailAppend(w, rest);
      RunOfWord(w[1..], rest);
    }
  }

  /** Each upper-case letter becomes its lower-case one, and nothing else changes. */
  lemma LowerTable(i: nat, c: ascii)
    ensures i < 26 ==> Lower("ABCDEFGHIJKLMNOPQRSTUVWXYZ"[i]) == "abcdefghijklmnopqrstuvwxyz"[i]
    ensures c !in "ABCDEFGHIJKLMNOPQRSTUVWXYZ" ==> Lower(c) == c
  {
    assert 'A' <= c <= 'Z' ==> c == "ABCDEFGHIJKLMNOPQRSTUVWXYZ"[c as int - 65];
  }

  lemma {:induction false} NoWords(gap: Text, rest: Text)
    requires forall i :: 0 <= i < |gap| ==> !Alnum(gap[i])
    ensures Words(gap + rest) == Words(rest)
  {
    if gap == [] {
      assert gap + rest == rest;
    } else {
      Seqs.TailAppend(gap, rest);
      NoWords(gap[1..], rest);
    }
  }

  lemma {:induction false} LoweredAt(s: Text)
    ensures |Lowered(s)| == |s| && forall i :: 0 <= i < |s| ==> Lowered(s)[i] == Lower(s[i])
  {
    if s != [] {
      LoweredAt(s[1..]);
    }
  }

  /** A text that begins with other characters, then a whole alphanumeric run, has that run in lower
      case as its first word, and its other words are those of what follows. */
  lemma WordsExactly(gap: Text, run: Text, rest: Text)
    requires (forall i :: 0 <= i < |gap| ==> !Alnum(gap[i])) && run != [] && (forall i :: 0 <= i < |run| ==> Alnum(run[i]))
    requires rest != [] ==> !Alnum(rest[0])
    ensures Words(gap) == [] && Words(gap + (run + rest)) == [Lowered(run)] + Words(rest)
    ensures |Lowered(run)| == |run| && forall i :: 0 <= i < |run| ==> Lowered(run)[i] == Lower(run[i])
  {
    NoWords(gap, []);
    assert gap + [] == gap;
    NoWords(gap, run + rest);
    RunOfWord(run, rest);
    LoweredAt(run);
    assert (run + rest)[..|run|] == run && (run + rest)[|run|..] == rest;
  }

  /** Splitting undoes joining: the words can be read back from the normal form. */
  lemma {:induction false} WordsOfJoin(words: seq<Text>)
    requires forall i :: 0 <= i < |words| ==> Word(words[i])
    ensures Words(Join(words)) == words
  {
    if words != [] {
      var w, later := words[0], words[1..];
      assert words == [w] + later;
      JoinFirst(w, later);
      var rest := Onward(later);
      RunOfWord(w, rest);
      LoweredWord(w);
      var s := w + rest;
      assert s[..|w|] == w && s[|w|..] == rest && s[0] == w[0];
      WordsOfJoin(later);
      if later != [] {
        assert rest[1..] == Join(later);
      }
    }
  }

  /** Normalising twice changes nothing. */
  lemma Idempotent(s: Text)
    ensures Normal(Normal(s)) == Normal(s)
  {
    WordsAreWords(s);
    WordsOfJoin(Words(s));
  }

  /** Two texts normalise alike if and only if they have the same word sequence. */
  lemma SameWords(a: Text, b: Text)
    ensures Normal(a) == Normal(b) <==> Words(a) == Words(b)
  {
    WordsAreWords(a);
    WordsAreWords(b);
    WordsOfJoin(Words(a));
    WordsOfJoin(Words(b));
  }

  // ------------------------------------------------------------------ the verdict

  predicate StartsWith(s: Text, p: Text) {
    |p| <= |s| && s[..|p|] == p
  }

  predicate EndsWith(s: Text, p: Text) {
    |p| <= |s| && s[|s| - |p|..] == p
  }

  predicate OccursAt(needle: Text, hay: Text, i: int) {
    0 <= i <= |hay| && StartsWith(hay[i..], needle)
  }

  predicate Occurs(needle: Text, hay: Text) {
    exists i :: 0 <= i <= |hay| && OccursAt(needle, hay, i)
  }

  /** A Contains canary. */
  predicate Passes(answer: Text, expected: Text) {
    Normal(expected) != [] && Occurs(Normal(expected), Normal(answer))
  }

  /** Case, punctuation and spacing of the answer never change the verdict. */
  lemma VerdictOfWords(a: Text, b: Text, expected: Text)
    requires Words(a) == Words(b)
    ensures Passes(a, expected) == Passes(b, expected)
    ensures Passes(a, expected) == Passes(Normal(a), Normal(expected))
  {
    Idempotent(a);
    Idempotent(expected);
  }

  lemma {:induction false} JoinSplit(a: seq<Text>, b: seq<Text>)
    ensures Join(a + b) == if a == [] then Join(b) else Join(a) + Onward(b)
  {
    if a == [] {
      assert a + b == b;
    } else {
      Seqs.TailAppend(a, b);
      JoinSplit(a[1..], b);
      assert a + b == [a[0]] + (a[1..] + b) && a == [a[0]] + a[1..];
      JoinFirst(a[0], a[1..] + b);
      JoinFirst(a[0], a[1..]);
      if |a| > 1 {
        Seqs.Assoc([SPACE], Join(a[1..]), Onward(b));
        Seqs.Assoc(a[0], Onward(a[1..]), Onward(b));
      } else {
        assert a[1..] + b == b && Onward(a[1..]) == [] && a[0] + [] == a[0];
      }
    }
  }

  lemma OccursInside(pre: Text, needle: Text, post: Text)
    ensures Occurs(needle, pre + (needle + post))
  {
    var hay := pre + (needle + post);
    assert hay[|pre|..] == needle + post;
    assert OccursAt(needle, hay, |pre|);
  }

  /** An answer that has the expected words in a row passes. */
  lemma WordsInARowPass(answer: Text, expected: Text, pre: seq<Text>, post: seq<Text>)
    requires Words(expected) != [] && Words(answer) == pre + (Words(expected) + post)
    ensures Passes(answer, expected)
  {
    var e := Words(expected);
    WordsAreWords(expected);
    assert e == [e[0]] + e[1..];
    JoinFirst(e[0], e[1..]);
    JoinSplit(pre, e + post);
    JoinSplit(e, post);
    if pre == [] {
      assert Normal(answer) == [] + (Join(e) + Onward(post));
      OccursInside([], Join(e), Onward(post));
    } else {
      Seqs.Assoc(Join(pre), [SPACE], Join(e) + Onward(post));
      OccursInside(Join(pre) + [SPACE], Join(e), Onward(post));
    }
  }

  /** From position `p` on, the answer's words read as the expected ones, except that the first may
      have a longer word before it end in it and the last may begin a longer word. */
  predicate RunAt(hay: seq<Text>, needle: seq<Text>, p: int) {
    && 0 < |needle| && 0 <= p <= |hay| - |needle|
    && if |needle| == 1 then Occurs(needle[0], hay[p])
       else
         && EndsWith(hay[p], needle[0])
         && (forall k :: 1 <= k < |needle| - 1 ==> hay[p + k] == needle[k])
         && StartsWith(hay[p + |needle| - 1], needle[|needle| - 1])
  }

  ghost predicate AllWords(words: seq<Text>) {
    forall i :: 0 <= i < |words| ==> Word(words[i])
  }

  predicate AlnumText(s: Text) {
    forall i :: 0 <= i < |s| ==> Alnum(s[i])
  }

  /** The joined needle begins the text of `head` followed by `later`. */
  predicate Begins(needle: seq<Text>, head: Text, later: seq<Text>)
    decreases |needle|
  {
    && needle != []
    && if |needle| == 1 then StartsWith(head, needle[0])
       else needle[0] == head && later != [] && Begins(needle[1..], later[0], later[1..])
  }

  /** A text without spaces begins `head` and what follows only by beginning `head`. */
  lemma StartsInWord(w: Text, head: Text, later: seq<Text>)
    requires AlnumText(w)
    ensures StartsWith(head + Onward(later), w) <==> StartsWith(head, w)
  {
    var s := head + Onward(later);
    assert |head| < |s| ==> s[|head|] == SPACE;
    if StartsWith(s, w) {
      assert forall k :: 0 <= k < |w| ==> s[..|w|][k] == s[k];
      assert |w| <= |head|;
    }
    if |w| <= |head| {
      assert s[..|w|] == head[..|w|];
    }
  }

  lemma PrefixChars(s: Text, p: Text)
    requires StartsWith(s, p)
    ensures forall k :: 0 <= k < |p| ==> s[k] == p[k]
  {
    assert forall k :: 0 <= k < |p| ==> s[..|p|][k] == s[k];
  }

  /** The first space is where the first word ends. */
  lemma SpaceEndsWord(w: Text, rest: Text, head: Text, later: seq<Text>)
    requires AlnumText(w) && AlnumText(head)
    requires StartsWith(head + Onward(later), w + ([SPACE] + rest))
    ensures w == head && later != []
  {
    var s, p := head + Onward(later), w + ([SPACE] + rest);
    PrefixChars(s, p);
    assert p[|w|] == SPACE && (|head| < |s| ==> s[|head|] == SPACE);
    assert forall k :: 0 <= k < |head| ==> s[k] == head[k];
    assert forall k :: 0 <= k < |w| ==> p[k] == w[k];
    assert s[|w|] == SPACE;
    assert |w| == |head|;
    assert w == head;
  }

  /** A word followed by more is at the head exactly when the head is that word. */
  lemma WholeWordThenSpace(w: Text, rest: Text, head: Text, later: seq<Text>)
    requires AlnumText(w) && AlnumText(head)
    ensures StartsWith(head + Onward(later), w + ([SPACE] + rest)) <==>
      w == head && later != [] && StartsWith(Join(later), rest)
  {
    var s, p := head + Onward(later), w + ([SPACE] + rest);
    if StartsWith(s, p) {
      SpaceEndsWord(w, rest, head, later);
    }
    if w == head && later != [] {
      SkipCommon(w + [SPACE], Join(later), rest);
      Seqs.Assoc(w, [SPACE], Join(later));
      Seqs.Assoc(w, [SPACE], rest);
    }
  }

  lemma SkipCommon(a: Text, s: Text, p: Text)
    ensures StartsWith(a + s, a + p) <==> StartsWith(s, p)
  {
    if |p| <= |s| {
      assert (a + s)[..|a + p|] == a + s[..|p|];
      if a + s[..|p|] == a + p {
        assert s[..|p|] == (a + s[..|p|])[|a|..] && p == (a + p)[|a|..];
      }
    }
  }

  lemma {:induction false} BeginsExactly(needle: seq<Text>, head: Text, later: seq<Text>)
    requires needle != [] && AllWords(needle) && AlnumText(head) && AllWords(later)
    ensures StartsWith(head + Onward(later), Join(needle)) <==> Begins(needle, head, later)
    decreases |needle|
  {
    if |needle| == 1 {
      StartsInWord(needle[0], head, later);
    } else {
      assert needle == [needle[0]] + needle[1..];
      JoinFirst(needle[0], needle[1..]);
      WholeWordThenSpace(needle[0], Join(needle[1..]), head, later);
      if later != [] {
        assert later == [later[0]] + later[1..];
        JoinFirst(later[0], later[1..]);
        BeginsExactly(needle[1..], later[0], later[1..]);
      }
    }
  }

  lemma {:induction false} BeginsInPlace(needle: seq<Text>, head: Text, later: seq<Text>)
    requires |needle| > 1
    ensures Begins(needle, head, later) <==>
      && needle[0] == head && |needle| - 1 <= |later|
      && (forall k :: 1 <= k < |needle| - 1 ==> later[k - 1] == needle[k])
      && StartsWith(later[|needle| - 2], needle[|needle| - 1])
    decreases |needle|
  {
    if |needle| > 2 && later != [] {
      BeginsInPlace(needle[1..], later[0], later[1..]);
      if needle[0] == head && Begins(needle[1..], later[0], later[1..]) {
        forall k | 1 <= k < |needle| - 1 ensures later[k - 1] == needle[k] {
          if k > 1 {
            assert later[1..][k - 2] == needle[1..][k - 1];
          }
        }
      }
    }
  }

  lemma OccursInHead(needle: Text, w: Text, later: seq<Text>, i: int)
    requires 0 <= i < |w|
    ensures OccursAt(needle, w + Onward(later), i) <==> StartsWith(w[i..] + Onward(later), needle)
  {
    assert (w + Onward(later))[i..] == w[i..] + Onward(later);
  }

  lemma OccursLater(needle: Text, w: Text, later: seq<Text>, i: int)
    requires later != [] && 0 <= i <= |Join(later)|
    ensures OccursAt(needle, w + Onward(later), |w| + 1 + i) <==> OccursAt(needle, Join(later), i)
  {
    assert (w + Onward(later))[|w| + 1 + i..] == Join(later)[i..];
  }

  lemma NotAtGap(needle: Text, w: Text, later: seq<Text>)
    requires needle != [] && Alnum(needle[0])
    ensures !OccursAt(needle, w + Onward(later), |w|)
  {
    var hay := w + Onward(later);
    assert hay[|w|..] == Onward(later);
  }

  ghost predicate OccursFromHead(needle: Text, w: Text, later: seq<Text>) {
    exists i :: 0 <= i < |w| && StartsWith(w[i..] + Onward(later), needle)
  }

  lemma OccurrenceLies(needle: Text, w: Text, later: seq<Text>, i: int)
    requires needle != [] && Alnum(needle[0]) && 0 <= i <= |w + Onward(later)|
    requires OccursAt(needle, w + Onward(later), i)
    ensures OccursFromHead(needle, w, later) || (later != [] && Occurs(needle, Join(later)))
  {
    NotAtGap(needle, w, later);
    if i < |w| {
      OccursInHead(needle, w, later, i);
    } else {
      OccursLater(needle, w, later, i - |w| - 1);
    }
  }

  lemma HeadOccurs(needle: Text, w: Text, later: seq<Text>)
    requires OccursFromHead(needle, w, later)
    ensures Occurs(needle, w + Onward(later))
  {
    var i :| 0 <= i < |w| && StartsWith(w[i..] + Onward(later), needle);
    OccursInHead(needle, w, later, i);
  }

  lemma LaterOccurs(needle: Text, w: Text, later: seq<Text>)
    requires later != [] && Occurs(needle, Join(later))
    ensures Occurs(needle, w + Onward(later))
  {
    var i :| 0 <= i <= |Join(later)| && OccursAt(needle, Join(later), i);
    OccursLater(needle, w, later, i);
  }

  /** An occurrence in joined words begins inside one of them. */
  lemma OccurrenceSplits(needle: Text, w: Text, later: seq<Text>)
    requires needle != [] && Alnum(needle[0])
    ensures Occurs(needle, w + Onward(later)) <==>
      OccursFromHead(needle, w, later) || (later != [] && Occurs(needle, Join(later)))
  {
    if Occurs(needle, w + Onward(later)) {
      var i :| 0 <= i <= |w + Onward(later)| && OccursAt(needle, w + Onward(later), i);
      OccurrenceLies(needle, w, later, i);
    }
    if OccursFromHead(needle, w, later) {
      HeadOccurs(needle, w, later);
    }
    if later != [] && Occurs(needle, Join(later)) {
      LaterOccurs(needle, w, later);
    }
  }

  /** Where the head of the answer is one of its words, cut anywhere. */
  lemma HeadRun(needle: seq<Text>, hay: seq<Text>)
    requires needle != [] && hay != [] && AllWords(needle) && AllWords(hay)
    ensures OccursFromHead(Join(needle), hay[0], hay[1..]) <==> RunAt(hay, needle, 0)
  {
    var w, later := hay[0], hay[1..];
    forall i | 0 <= i < |w|
      ensures StartsWith(w[i..] + Onward(later), Join(needle)) <==> Begins(needle, w[i..], later)
    {
      BeginsExactly(needle, w[i..], later);
    }
    if |needle| == 1 {
      HeadRunOne(needle, w, later);
    } else {
      HeadRunMany(needle, hay);
    }
  }

  lemma HeadRunOne(needle: seq<Text>, w: Text, later: seq<Text>)
    requires |needle| == 1 && needle[0] != []
    ensures (exists i :: 0 <= i < |w| && Begins(needle, w[i..], later)) <==> Occurs(needle[0], w)
  {
    if Occurs(needle[0], w) {
      var i :| 0 <= i <= |w| && OccursAt(needle[0], w, i);
      assert Begins(needle, w[i..], later);
    }
    if i :| 0 <= i < |w| && Begins(needle, w[i..], later) {
      assert OccursAt(needle[0], w, i);
    }
  }

  lemma HeadRunMany(needle: seq<Text>, hay: seq<Text>)
    requires |needle| > 1 && hay != [] && needle[0] != []
    ensures (exists i :: 0 <= i < |hay[0]| && Begins(needle, hay[0][i..], hay[1..])) <==> RunAt(hay, needle, 0)
  {
    var w, later := hay[0], hay[1..];
    forall i | 0 <= i < |w| ensures Begins(needle, w[i..], later) <==> w[i..] == needle[0] && InnerAt(hay, needle) {
      BeginsInPlace(needle, w[i..], later);
      assert forall k :: 1 <= k < |hay| ==> later[k - 1] == hay[k];
    }
    if RunAt(hay, needle, 0) {
      assert Begins(needle, w[|w| - |needle[0]|..], later);
    }
  }

  /** Everything a run asks of the words after the first, at position 0. */
  predicate InnerAt(hay: seq<Text>, needle: seq<Text>)
    requires |needle| > 1
  {
    && |needle| <= |hay|
    && (forall k :: 1 <= k < |needle| - 1 ==> hay[k] == needle[k])
    && StartsWith(hay[|needle| - 1], needle[|needle| - 1])
  }

  lemma RunShift(hay: seq<Text>, needle: seq<Text>, p: int)
    requires hay != [] && p >= 0
    ensures RunAt(hay, needle, p + 1) <==> RunAt(hay[1..], needle, p)
  {
  }

  ghost predicate HasRun(hay: seq<Text>, needle: seq<Text>) {
    exists p :: RunAt(hay, needle, p)
  }

  lemma HasRunSplits(hay: seq<Text>, needle: seq<Text>)
    requires hay != []
    ensures HasRun(hay, needle) <==> RunAt(hay, needle, 0) || HasRun(hay[1..], needle)
  {
    if HasRun(hay, needle) {
      var p :| RunAt(hay, needle, p);
      if p > 0 {
        RunShift(hay, needle, p - 1);
      }
    }
    if HasRun(hay[1..], needle) {
      var p :| RunAt(hay[1..], needle, p);
      RunShift(hay, needle, p);
    }
  }

  lemma {:induction false} OccursExactly(needle: seq<Text>, hay: seq<Text>)
    requires needle != [] && AllWords(needle) && AllWords(hay)
    ensures Occurs(Join(needle), Join(hay)) <==> HasRun(hay, needle)
    decreases |hay|
  {
    assert needle == [needle[0]] + needle[1..];
    JoinFirst(needle[0], needle[1..]);
    assert Join(needle)[0] == needle[0][0];
    if hay != [] {
      assert hay == [hay[0]] + hay[1..];
      JoinFirst(hay[0], hay[1..]);
      OccurrenceSplits(Join(needle), hay[0], hay[1..]);
      HeadRun(needle, hay);
      HasRunSplits(hay, needle);
      OccursExactly(needle, hay[1..]);
      assert Join([]) == [];
    }
  }

  /** Exactly which answers pass: those with the expected words in a row, where only the outer ends
      of the first and last may lie inside longer words. */
  lemma PassesExactly(answer: Text, expected: Text)
    ensures Passes(answer, expected) <==> Words(expected) != [] && HasRun(Words(answer), Words(expected))
  {
    var e := Words(expected);
    WordsAreWords(answer);
    WordsAreWords(expected);
    if e != [] {
      assert e == [e[0]] + e[1..];
      JoinFirst(e[0], e[1..]);
      OccursExactly(e, Words(answer));
    }
  }

  predicate RowAt(hay: seq<Text>, needle: seq<Text>, p: int) {
    0 <= p <= |hay| - |needle| && hay[p..p + |needle|] == needle
  }

  /** One end of the run lies inside a longer word. */
  predicate LooseAt(hay: seq<Text>, needle: seq<Text>, p: int)
    requires RunAt(hay, needle, p)
  {
    hay[p] != needle[0] || hay[p + |needle| - 1] != needle[|needle| - 1]
  }

  lemma RowIsRun(hay: seq<Text>, needle: seq<Text>, p: int)
    requires needle != []
    ensures RowAt(hay, needle, p) <==> RunAt(hay, needle, p) && !LooseAt(hay, needle, p)
  {
    var w := needle[0];
    assert w[0..] == w && w[..|w|] == w;
    assert OccursAt(w, w, 0);
    var z := needle[|needle| - 1];
    assert z[..|z|] == z;
    if RowAt(hay, needle, p) {
      var row := hay[p..p + |needle|];
      assert row[0] == hay[p] && row[|needle| - 1] == hay[p + |needle| - 1];
      forall k | 1 <= k < |needle| - 1 ensures hay[p + k] == needle[k] {
        assert row[k] == hay[p + k];
      }
    }
  }

  /** An answer passes without the expected words in a row if and only if it has a run of them and
      every such run has a longer word at one of its two ends. */
  lemma PassesLoosely(answer: Text, expected: Text)
    ensures var h, e := Words(answer), Words(expected);
      Passes(answer, expected) && !(exists p :: RowAt(h, e, p)) <==>
        HasRun(h, e) && forall p :: RunAt(h, e, p) ==> LooseAt(h, e, p)
  {
    var h, e := Words(answer), Words(expected);
    PassesExactly(answer, expected);
    if e != [] {
      forall p ensures RowAt(h, e, p) <==> RunAt(h, e, p) && !LooseAt(h, e, p) {
        RowIsRun(h, e, p);
      }
    }
  }

  /** An instance: the expected word inside a longer one. */
  lemma PartOfAWordPasses()
    ensures Words("ab") == ["ab"] && Words("b") == ["b"] && Passes("ab", "b")
    ensures !exists p :: RowAt(Words("ab"), Words("b"), p)
  {
    var ab: Text := "ab";
    var b: Text := "b";
    assert ab[1..] == b && b[1..] == [];
    assert Run([]) == 0 && Run(b) == 1 && Run(ab) == 2;
    assert ab[..2] == ab && ab[2..] == [] && b[..1] == b;
    assert Lowered(b) == b && Lowered(ab) == ab;
    OccursInside("a", "b", []);
    assert "a" + ("b" + []) == "ab";
  }
}
