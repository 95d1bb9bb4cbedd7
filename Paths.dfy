/** `makePath` (utils.ts): builds a URL path from segments, one slash between
    the non-empty pieces and one at each end. */
module Paths {

  /** `s.split("/")`: the pieces between slashes, one more than there are
      slashes. */
  function Split(s: string): (pieces: seq<string>)
    ensures |pieces| >= 1
    ensures forall i :: 0 <= i < |pieces| ==> '/' !in pieces[i]
  {
    if s == "" then [""]
    else if s[0] == '/' then [""] + Split(s[1..])
    else
      var rest := Split(s[1..]);
      [[s[0]] + rest[0]] + rest[1..]
  }

  /** `pieces.join("/")`. */
  function Join(pieces: seq<string>): string {
    if |pieces| == 0 then ""
    else if |pieces| == 1 then pieces[0]
    else pieces[0] + "/" + Join(pieces[1..])
  }

  /** `pieces.filter(Boolean)`: the empty string is the only falsy string. */
  function NonEmpty(pieces: seq<string>): (kept: seq<string>)
    ensures forall i :: 0 <= i < |kept| ==> kept[i] != "" && kept[i] in pieces
  {
    if pieces == [] then []
    else (if pieces[0] == "" then [] else [pieces[0]]) + NonEmpty(pieces[1..])
  }

  /** One segment with its inner slashes normalised (utils.ts:41-43). */
  function NormalizeSegment(segment: string): string {
    Join(NonEmpty(if segment != "" then Split(segment) else []))
  }

  function NormalizeAll(segments: seq<string>): (normalized: seq<string>)
    ensures |normalized| == |segments|
  {
    seq(|segments|, i requires 0 <= i < |segments| => NormalizeSegment(segments[i]))
  }

  /** `makePath(...segments)`: `["", ...normalized non-empty segments, ""].join("/")`. */
  function MakePath(segments: seq<string>): string {
    Join([""] + NonEmpty(NormalizeAll(segments)) + [""])
  }

  // ----- the words of a path -----

  /** A non-empty piece without slashes. */
  predicate IsWord(w: string) {
    w != "" && '/' !in w
  }

  /** The maximal slash-free runs of `s`, in order. */
  function Words(s: string): (ws: seq<string>)
    ensures forall i :: 0 <= i < |ws| ==> IsWord(ws[i])
  {
    NonEmpty(Split(s))
  }

  /** The words of all segments, in order. */
  function AllWords(segments: seq<string>): (ws: seq<string>)
    ensures forall i :: 0 <= i < |ws| ==> IsWord(ws[i])
  {
    if segments == [] then [] else Words(segments[0]) + AllWords(segments[1..])
  }

  /** No two consecutive slashes. */
  predicate NoDoubleSlash(s: string) {
    forall i :: 0 < i < |s| ==> !(s[i - 1] == '/' && s[i] == '/')
  }

  /** A non-empty string with no slash at either end and no doubled slash. */
  predicate Clean(s: string) {
    s != "" && s[0] != '/' && s[|s| - 1] != '/' && NoDoubleSlash(s)
  }

  // ----- split and join -----

  lemma {:induction false} SplitNoSlash(w: string)
    requires '/' !in w
    ensures Split(w) == [w]
  {
    if w != "" {
      SplitNoSlash(w[1..]);
      assert [w[0]] + w[1..] == w;
    }
  }

  /** Splitting at a slash splits the two sides independently. */
  lemma {:induction false} SplitConcat(a: string, b: string)
    ensures Split(a + "/" + b) == Split(a) + Split(b)
  {
    var s := a + "/" + b;
    if a == "" {
      assert s == "/" + b && s[1..] == b;
    } else {
      assert s[0] == a[0] && s[1..] == a[1..] + "/" + b;
      SplitConcat(a[1..], b);
      if a[0] != '/' {
        var rest := Split(s[1..]);
        assert rest[0] == Split(a[1..])[0];
        assert rest[1..] == Split(a[1..])[1..] + Split(b);
      }
    }
  }

  /** Joining the pieces of a split gives the string back. */
  lemma {:induction false} JoinSplit(s: string)
    ensures Join(Split(s)) == s
  {
    if s != "" {
      JoinSplit(s[1..]);
      var rest := Split(s[1..]);
      if s[0] == '/' {
        assert ([""] + rest)[1..] == rest;
        assert s == "/" + s[1..];
      } else if |rest| == 1 {
        assert s == [s[0]] + s[1..];
      } else {
        var r := [[s[0]] + rest[0]] + rest[1..];
        assert r[1..] == rest[1..];
        assert Join(rest) == rest[0] + "/" + Join(rest[1..]);
        assert s == [s[0]] + s[1..];
      }
    }
  }

  /** Splitting a join of slash-free pieces gives the pieces back. */
  lemma {:induction false} SplitJoin(ws: seq<string>)
    requires |ws| >= 1
    requires forall i :: 0 <= i < |ws| ==> '/' !in ws[i]
    ensures Split(Join(ws)) == ws
  {
    if |ws| == 1 {
      SplitNoSlash(ws[0]);
    } else {
      SplitConcat(ws[0], Join(ws[1..]));
      SplitJoin(ws[1..]);
      SplitNoSlash(ws[0]);
      assert [ws[0]] + ws[1..] == ws;
    }
  }

  lemma {:induction false} JoinConcat(a: seq<string>, b: seq<string>)
    requires |a| >= 1 && |b| >= 1
    ensures Join(a + b) == Join(a) + "/" + Join(b)
  {
    assert (a + b)[0] == a[0];
    assert (a + b)[1..] == a[1..] + b;
    if |a| > 1 {
      JoinConcat(a[1..], b);
    }
  }

  lemma {:induction false} NonEmptyConcat(a: seq<string>, b: seq<string>)
    ensures NonEmpty(a + b) == NonEmpty(a) + NonEmpty(b)
  {
    if a != [] {
      assert (a + b)[0] == a[0];
      assert (a + b)[1..] == a[1..] + b;
      NonEmptyConcat(a[1..], b);
    } else {
      assert a + b == b;
    }
  }

  lemma {:induction false} NonEmptyKeepsWords(ws: seq<string>)
    requires forall i :: 0 <= i < |ws| ==> ws[i] != ""
    ensures NonEmpty(ws) == ws
  {
    if ws != [] {
      NonEmptyKeepsWords(ws[1..]);
      assert [ws[0]] + ws[1..] == ws;
    }
  }

  // ----- what makePath computes -----

  lemma NormalizeSegmentWords(segment: string)
    ensures NormalizeSegment(segment) == Join(Words(segment))
  {
    if segment == "" {
      assert Split(segment) == [""];
    }
  }

  lemma {:induction false} JoinWordsClean(ws: seq<string>)
    requires forall i :: 0 <= i < |ws| ==> IsWord(ws[i])
    ensures ws == [] <==> Join(ws) == ""
    ensures ws != [] ==> Clean(Join(ws))
  {
    if |ws| == 1 {
      WordClean(ws[0]);
    } else if |ws| > 1 {
      WordClean(ws[0]);
      JoinWordsClean(ws[1..]);
      CleanConcat(ws[0], Join(ws[1..]));
    }
  }

  lemma JoinEmpty(ws: seq<string>)
    requires forall i :: 0 <= i < |ws| ==> ws[i] != ""
    ensures ws == [] <==> Join(ws) == ""
  {
    if |ws| > 1 {
      assert |Join(ws)| >= |ws[0]|;
    }
  }

  lemma WordClean(w: string)
    requires IsWord(w)
    ensures Clean(w)
  {
    forall i | 0 <= i < |w| ensures w[i] != '/' {
      assert w[i] in w;
    }
  }

  lemma CleanConcat(a: string, b: string)
    requires Clean(a) && Clean(b)
    ensures Clean(a + "/" + b)
  {
    var s := a + "/" + b;
    forall i | 0 < i < |s| ensures !(s[i - 1] == '/' && s[i] == '/') {
      if i < |a| {
        assert s[i - 1] == a[i - 1] && s[i] == a[i];
      } else if i == |a| {
        assert s[i - 1] == a[|a| - 1];
      } else if i == |a| + 1 {
        assert s[i] == b[0];
      } else {
        assert s[i - 1] == b[i - 2 - |a|] && s[i] == b[i - 1 - |a|];
      }
    }
  }

  /** `["", ...xs, ""].join("/")`. */
  lemma Framed(xs: seq<string>)
    ensures Join([""] + xs + [""]) == if xs == [] then "/" else "/" + Join(xs) + "/"
  {
    if xs == [] {
      assert [""] + xs + [""] == ["", ""];
    } else {
      assert [""] + xs + [""] == [""] + (xs + [""]);
      JoinConcat(xs, [""]);
    }
  }

  /** One segment's contribution: its normalised form, empty exactly when it
      has no words, joins onto the rest as its words do. */
  lemma JoinStep(n0: string, w0: seq<string>, tail: seq<string>, ws: seq<string>)
    requires n0 == Join(w0) && (w0 == [] <==> n0 == "")
    requires (tail == [] <==> ws == []) && Join(tail) == Join(ws)
    ensures var kept := (if n0 == "" then [] else [n0]) + tail;
      (kept == [] <==> w0 + ws == []) && Join(kept) == Join(w0 + ws)
  {
    if w0 == [] {
      assert w0 + ws == ws;
      assert [] + tail == tail;
    } else if tail == [] {
      assert w0 + ws == w0;
      assert [n0] + tail == [n0];
    } else {
      JoinConcat(w0, ws);
      assert ([n0] + tail)[1..] == tail;
    }
  }

  lemma {:induction false} NormalizedWords(segments: seq<string>)
    ensures NonEmpty(NormalizeAll(segments)) == [] <==> AllWords(segments) == []
    ensures Join(NonEmpty(NormalizeAll(segments))) == Join(AllWords(segments))
  {
    if segments != [] {
      var rest := segments[1..];
      var n0 := NormalizeSegment(segments[0]);
      var w0 := Words(segments[0]);
      assert NormalizeAll(segments) == [n0] + NormalizeAll(rest);
      NonEmptyConcat([n0], NormalizeAll(rest));
      assert NonEmpty([n0]) == if n0 == "" then [] else [n0];
      NormalizedWords(rest);
      NormalizeSegmentWords(segments[0]);
      JoinEmpty(w0);
      assert AllWords(segments) == w0 + AllWords(rest);
      JoinStep(n0, w0, NonEmpty(NormalizeAll(rest)), AllWords(rest));
    }
  }

  /** `makePath` is determined by the words of its segments. */
  lemma MakePathWords(segments: seq<string>)
    ensures MakePath(segments) == Join([""] + AllWords(segments) + [""])
    ensures MakePath(segments) == if AllWords(segments) == [] then "/" else "/" + Join(AllWords(segments)) + "/"
  {
    NormalizedWords(segments);
    Framed(NonEmpty(NormalizeAll(segments)));
    Framed(AllWords(segments));
  }

  lemma {:induction false} WordsEmpty(s: string)
    ensures Words(s) == [] <==> forall j :: 0 <= j < |s| ==> s[j] == '/'
  {
    if s != "" {
      WordsEmpty(s[1..]);
      var rest := Split(s[1..]);
      if s[0] == '/' {
        assert ([""] + rest)[1..] == rest;
        assert forall j :: 1 <= j < |s| ==> s[j] == s[1..][j - 1];
      } else {
        assert Split(s)[0] != "";
      }
    }
  }

  lemma {:induction false} AllWordsEmpty(segments: seq<string>)
    ensures AllWords(segments) == [] <==> forall i :: 0 <= i < |segments| ==> Words(segments[i]) == []
  {
    if segments != [] {
      var rest := segments[1..];
      AllWordsEmpty(rest);
      assert AllWords(segments) == Words(segments[0]) + AllWords(rest);
      assert |AllWords(segments)| == |Words(segments[0])| + |AllWords(rest)|;
      if Words(segments[0]) == [] && forall i :: 0 <= i < |rest| ==> Words(rest[i]) == [] {
        forall i | 0 <= i < |segments| ensures Words(segments[i]) == [] {
          if i > 0 {
            assert segments[i] == rest[i - 1];
          }
        }
      }
      if forall i :: 0 <= i < |segments| ==> Words(segments[i]) == [] {
        forall i | 0 <= i < |rest| ensures Words(rest[i]) == [] {
          assert rest[i] == segments[i + 1];
        }
      }
    }
  }

  /** The result starts and ends with a slash and never doubles one; it is
      exactly "/" when no segment holds anything but slashes (utils.ts:37-46). */
  lemma MakePathShape(segments: seq<string>)
    ensures var p := MakePath(segments);
      && |p| >= 1 && p[0] == '/' && p[|p| - 1] == '/'
      && NoDoubleSlash(p)
      && (p == "/" <==> forall i, j :: 0 <= i < |segments| && 0 <= j < |segments[i]| ==> segments[i][j] == '/')
  {
    var ws := AllWords(segments);
    MakePathWords(segments);
    AllWordsEmpty(segments);
    forall i | 0 <= i < |segments| ensures Words(segments[i]) == [] <==> forall j :: 0 <= j < |segments[i]| ==> segments[i][j] == '/' {
      WordsEmpty(segments[i]);
    }
    if ws != [] {
      JoinWordsClean(ws);
      var c := Join(ws);
      var p := "/" + c + "/";
      forall i | 0 < i < |p| ensures !(p[i - 1] == '/' && p[i] == '/') {
        if i == 1 {
          assert p[i] == c[0];
        } else if i == |p| - 1 {
          assert p[i - 1] == c[|c| - 1];
        } else {
          assert p[i - 1] == c[i - 2] && p[i] == c[i - 1];
        }
      }
    }
  }

  /** The words of the path `makePath` builds are the words of its segments. */
  lemma WordsOfMakePath(segments: seq<string>)
    ensures Words(MakePath(segments)) == AllWords(segments)
  {
    var ws := AllWords(segments);
    var framed := [""] + ws + [""];
    MakePathWords(segments);
    forall i | 0 <= i < |framed|
      ensures '/' !in framed[i]
    {
      if 0 < i < |framed| - 1 {
        assert framed[i] == ws[i - 1];
      }
    }
    SplitJoin(framed);
    assert Words(MakePath(segments)) == NonEmpty(framed);
    NonEmptyKeepsWords(ws);
    NonEmptyConcat([""], ws);
    assert NonEmpty([""]) == [];
    assert NonEmpty([""] + ws) == ws;
    NonEmptyConcat([""] + ws, [""]);
    assert NonEmpty(framed) == ws + [];
  }

  /** Normalising an already normalised path changes nothing. */
  lemma MakePathIdempotent(segments: seq<string>)
    ensures MakePath([MakePath(segments)]) == MakePath(segments)
  {
    var p := MakePath(segments);
    WordsOfMakePath(segments);
    assert [p][1..] == [];
    assert AllWords([p]) == Words(p) + AllWords([]);
    assert AllWords([p]) == AllWords(segments);
    MakePathWords([p]);
    MakePathWords(segments);
  }

  lemma {:induction false} WordsOfJoin(segments: seq<string>)
    ensures Words(Join(segments)) == AllWords(segments)
  {
    if |segments| == 1 {
      assert AllWords(segments) == Words(segments[0]) + AllWords([]);
    } else if |segments| > 1 {
      WordsOfJoin(segments[1..]);
      SplitConcat(segments[0], Join(segments[1..]));
      NonEmptyConcat(Split(segments[0]), Split(Join(segments[1..])));
    }
  }

  /** Slashes inside a segment separate pieces exactly as separate segments
      do: `makePath(segments.join("/")) == makePath(...segments)`. */
  lemma MakePathOfJoin(segments: seq<string>)
    ensures MakePath([Join(segments)]) == MakePath(segments)
  {
    var j := Join(segments);
    WordsOfJoin(segments);
    assert [j][1..] == [];
    assert AllWords([j]) == Words(j) + AllWords([]);
    assert AllWords([j]) == AllWords(segments);
    MakePathWords([j]);
    MakePathWords(segments);
  }

  lemma MakePathExample()
    ensures MakePath(["a/b"]) == "/a/b/"
    ensures MakePath(["a", "b"]) == "/a/b/"
  {
    var ab := ["a", "b"];
    SplitNoSlash("a");
    SplitNoSlash("b");
    NonEmptyKeepsWords(["a"]);
    NonEmptyKeepsWords(["b"]);
    assert AllWords(["b"]) == ["b"] by {
      assert AllWords(["b"]) == Words("b") + AllWords([]);
    }
    assert AllWords(ab) == ["a", "b"] by {
      assert ab[1..] == ["b"];
      assert AllWords(ab) == Words("a") + AllWords(["b"]);
    }
    assert Join(ab) == "a/b" by {
      assert ab[1..] == ["b"];
    }
    MakePathWords(ab);
    MakePathOfJoin(ab);
  }
}
