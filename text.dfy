/**
 * The string operations the poet relies on: ASCII lower-casing (standing in
 * for `String.toLowerCase`), splitting on the space character with empty
 * pieces dropped (`input.split(" ")` followed by `removeAll("")`), joining
 * with single spaces, and `List.indexOf`.
 */
module Text {

  /** One character lower-cased: 'A'..'Z' become 'a'..'z', everything else
      is kept. */
  function LowerChar(c: char): (d: char)
    ensures !('A' <= d <= 'Z')
    ensures !('A' <= c <= 'Z') ==> d == c
    ensures 'A' <= c <= 'Z' ==> d as int - c as int == 'a' as int - 'A' as int
  {
    if 'A' <= c <= 'Z' then (c as int - 'A' as int + 'a' as int) as char else c
  }

  /** `toLowerCase`: the same characters, one by one lower-cased. */
  function Lower(s: string): (r: string)
    ensures |r| == |s|
    ensures forall i :: 0 <= i < |r| ==> r[i] == LowerChar(s[i])
  {
    seq(|s|, i requires 0 <= i < |s| => LowerChar(s[i]))
  }

  /** Lower-casing twice is lower-casing once. */
  lemma LowerIdempotent(s: string)
    ensures Lower(Lower(s)) == Lower(s)
  {
    var once := Lower(s);
    forall i | 0 <= i < |s| ensures Lower(once)[i] == once[i] {
      assert !('A' <= once[i] <= 'Z');
    }
  }

  /** Every word lower-cased. */
  function LowerAll(ws: seq<string>): (r: seq<string>)
    ensures |r| == |ws|
    ensures forall i :: 0 <= i < |r| ==> r[i] == Lower(ws[i])
  {
    seq(|ws|, i requires 0 <= i < |ws| => Lower(ws[i]))
  }

  /** A word of the split: non-empty and without the separator. */
  predicate IsWord(w: string)
  {
    w != [] && ' ' !in w
  }

  /** The pieces of `cur + s` between spaces, empty pieces dropped; `cur` is
      the part of the current piece already read. */
  function WordsFrom(s: string, cur: string): (r: seq<string>)
    requires ' ' !in cur
    ensures forall i :: 0 <= i < |r| ==> IsWord(r[i])
    decreases |s|
  {
    if s == [] then
      (if cur == [] then [] else [cur])
    else if s[0] == ' ' then
      (if cur == [] then WordsFrom(s[1..], []) else [cur] + WordsFrom(s[1..], []))
    else
      WordsFrom(s[1..], cur + [s[0]])
  }

  /** `split(" ")` with the empty strings removed. */
  function Words(s: string): (r: seq<string>)
    ensures forall i :: 0 <= i < |r| ==> IsWord(r[i])
  {
    WordsFrom(s, [])
  }

  /** The words separated by single spaces. */
  function Join(ws: seq<string>): string
  {
    if ws == [] then []
    else if |ws| == 1 then ws[0]
    else ws[0] + " " + Join(ws[1..])
  }

  /** Joining one more word adds a space and that word. */
  lemma {:induction false} JoinSnoc(ws: seq<string>, w: string)
    requires ws != []
    ensures Join(ws + [w]) == Join(ws) + " " + w
  {
    if |ws| == 1 {
      assert (ws + [w])[1..] == [w];
    } else {
      assert (ws + [w])[1..] == ws[1..] + [w];
      JoinSnoc(ws[1..], w);
    }
  }

  /** All characters of s but its spaces, in order. */
  function NonSpace(s: string): (r: string)
    ensures ' ' !in r
  {
    if s == [] then [] else (if s[0] == ' ' then [] else [s[0]]) + NonSpace(s[1..])
  }

  /** The words one after the other, with nothing between them. */
  function Concat(ws: seq<string>): string
  {
    if ws == [] then [] else ws[0] + Concat(ws[1..])
  }

  /** Reading the characters of a space-free word just extends the current
      piece. */
  lemma {:induction false} WordsFromWord(w: string, rest: string, cur: string)
    requires ' ' !in w && ' ' !in cur
    ensures WordsFrom(w + rest, cur) == WordsFrom(rest, cur + w)
    decreases |w|
  {
    if w == [] {
      assert w + rest == rest && cur + w == cur;
    } else {
      assert (w + rest)[0] == w[0] && (w + rest)[1..] == w[1..] + rest;
      WordsFromWord(w[1..], rest, cur + [w[0]]);
      assert cur + [w[0]] + w[1..] == cur + w;
    }
  }

  /** The split undoes the join: words joined by single spaces split back
      into the same words. */
  lemma {:induction false} WordsOfJoin(ws: seq<string>)
    requires forall i :: 0 <= i < |ws| ==> IsWord(ws[i])
    ensures Words(Join(ws)) == ws
  {
    if ws == [] {
    } else if |ws| == 1 {
      WordsFromWord(ws[0], [], []);
      assert ws[0] + [] == ws[0] && [] + ws[0] == ws[0];
    } else {
      var tail := Join(ws[1..]);
      assert Join(ws) == ws[0] + (" " + tail);
      WordsFromWord(ws[0], " " + tail, []);
      assert [] + ws[0] == ws[0];
      assert (" " + tail)[0] == ' ' && (" " + tail)[1..] == tail;
      WordsOfJoin(ws[1..]);
      assert ws == [ws[0]] + ws[1..];
    }
  }

  /** Splitting keeps every character but the spaces: laid end to end, the
      pieces of `cur + s` are `cur` followed by the non-space characters of s. */
  lemma {:induction false} WordsFromKeep(s: string, cur: string)
    requires ' ' !in cur
    ensures Concat(WordsFrom(s, cur)) == cur + NonSpace(s)
    decreases |s|
  {
    if s == [] {
      if cur != [] {
        assert Concat([cur]) == cur + Concat([]);
      }
    } else if s[0] == ' ' {
      WordsFromKeep(s[1..], []);
      if cur != [] {
        var rest := WordsFrom(s[1..], []);
        assert ([cur] + rest)[1..] == rest;
      }
    } else {
      WordsFromKeep(s[1..], cur + [s[0]]);
    }
  }

  /** No character but a space is lost by the split. */
  lemma WordsKeep(s: string)
    ensures Concat(Words(s)) == NonSpace(s)
  {
    WordsFromKeep(s, []);
  }

  /** A string of spaces only (the empty string included) has no words. */
  lemma {:induction false} WordsOfBlank(s: string)
    requires forall i :: 0 <= i < |s| ==> s[i] == ' '
    ensures Words(s) == []
    decreases |s|
  {
    if s != [] {
      WordsOfBlank(s[1..]);
    }
  }

  /** Splitting `cur + a + " " + b` reads the pieces of `cur + a`, then
      those of b. */
  lemma {:induction false} WordsFromSpace(a: string, b: string, cur: string)
    requires ' ' !in cur
    ensures WordsFrom(a + " " + b, cur) == WordsFrom(a, cur) + Words(b)
    decreases |a|
  {
    if a == [] {
      assert a + " " + b == " " + b && (" " + b)[1..] == b;
    } else {
      assert (a + " " + b)[0] == a[0] && (a + " " + b)[1..] == a[1..] + " " + b;
      if a[0] == ' ' {
        WordsFromSpace(a[1..], b, []);
        if cur != [] {
          assert [cur] + (WordsFrom(a[1..], []) + Words(b)) == [cur] + WordsFrom(a[1..], []) + Words(b);
        }
      } else {
        WordsFromSpace(a[1..], b, cur + [a[0]]);
      }
    }
  }

  /** A space separates: the words of `a + " " + b` are those of a followed
      by those of b. */
  lemma WordsOfSpace(a: string, b: string)
    ensures Words(a + " " + b) == Words(a) + Words(b)
  {
    WordsFromSpace(a, b, []);
  }

  /** `indexOf`: the first position holding w, -1 when there is none. */
  function IndexOf(ws: seq<string>, w: string): (r: int)
    ensures -1 <= r < |ws|
    ensures r == -1 <==> w !in ws
    ensures 0 <= r ==> ws[r] == w && forall i :: 0 <= i < r ==> ws[i] != w
  {
    if ws == [] then -1
    else if ws[0] == w then 0
    else
      var k := IndexOf(ws[1..], w);
      if k == -1 then -1 else k + 1
  }
}
