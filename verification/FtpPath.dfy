/**
  Paths of the file server example (examples/ftp_ly/FileManage.cc): cutting a string at a
  separator, and walking from a directory along a requested path.
*/
module FtpPath {
  import opened Basics
  import opened Sequences

  const SLASH: char := '/'
  const ROOT := "."
  const UP := ".."

  /** What cutting has found after a prefix: finished words, and the word that is still open. */
  datatype Cut = Cut(done: seq<string>, open: string)

  function CutAll(s: string, sp: char): Cut
    decreases |s|
  {
    if s == [] then Cut([], [])
    else CutNext(CutAll(s[..|s| - 1], sp), s[|s| - 1], sp)
  }

  function CutNext(c: Cut, x: char, sp: char): Cut {
    if x != sp then Cut(c.done, c.open + [x])
    else if c.open == [] then c
    else Cut(c.done + [c.open], [])
  }

  function Close(c: Cut): seq<string> {
    if c.open == [] then c.done else c.done + [c.open]
  }

  /** The words of s: the longest pieces without a separator, in order, and none of them empty. */
  function Words(s: string, sp: char): seq<string> {
    Close(CutAll(s, sp))
  }

  ghost predicate IsWord(w: string, sp: char) {
    w != [] && sp !in w
  }

  ghost predicate AllWords(ws: seq<string>, sp: char) {
    forall i :: 0 <= i < |ws| ==> IsWord(ws[i], sp)
  }

  lemma {:induction false} WordsAreWords(s: string, sp: char)
    ensures AllWords(CutAll(s, sp).done, sp) && sp !in CutAll(s, sp).open && AllWords(Words(s, sp), sp)
    decreases |s|
  {
    if s != [] { WordsAreWords(s[..|s| - 1], sp); }
  }

  lemma JoinNext(ws: seq<string>, w: string, sp: char)
    requires ws != []
    ensures Join(ws + [w], sp) == Join(ws, sp) + [sp] + w
  {
    assert (ws + [w])[..|ws|] == ws;
  }

  lemma CutOfNext(s: string, x: char, sp: char)
    ensures CutAll(s + [x], sp) == CutNext(CutAll(s, sp), x, sp)
  {
    assert (s + [x])[..|s|] == s;
  }

  /** A stretch without separators is added to the open word. */
  lemma {:induction false} CutOfWord(s: string, w: string, sp: char)
    requires sp !in w
    ensures CutAll(s + w, sp) == Cut(CutAll(s, sp).done, CutAll(s, sp).open + w)
    decreases |w|
  {
    var open := CutAll(s, sp).open;
    if w == [] {
      assert s + w == s && open + w == open;
    } else {
      var init, x := w[..|w| - 1], w[|w| - 1];
      CutOfWord(s, init, sp);
      CutOfNext(s + init, x, sp);
      assert s + w == (s + init) + [x] && open + w == (open + init) + [x];
    }
  }

  /** Cutting inverts joining. */
  lemma {:induction false} CutInvertsJoin(ws: seq<string>, sp: char)
    requires ws != [] && AllWords(ws, sp)
    ensures CutAll(Join(ws, sp), sp) == Cut(ws[..|ws| - 1], ws[|ws| - 1])
    ensures Words(Join(ws, sp), sp) == ws
    decreases |ws|
  {
    var last := |ws| - 1;
    if last == 0 {
      CutOfWord([], ws[0], sp);
      assert [] + ws[0] == ws[0];
    } else {
      var init := ws[..last];
      CutInvertsJoin(init, sp);
      CutOfNext(Join(init, sp), sp, sp);
      CutOfWord(Join(init, sp) + [sp], ws[last], sp);
      assert init == init[..last - 1] + [init[last - 1]];
      assert [] + ws[last] == ws[last];
    }
    assert ws == ws[..last] + [ws[last]];
  }

  /** Separators in front change nothing, and separators behind only close the last word. */
  lemma {:induction false} LeadingIgnored(pad: string, s: string, sp: char)
    requires forall i :: 0 <= i < |pad| ==> pad[i] == sp
    ensures CutAll(pad + s, sp) == CutAll(s, sp)
    decreases |pad| + |s|
  {
    if s == [] {
      assert pad + s == pad;
      if pad != [] {
        LeadingIgnored(pad[..|pad| - 1], [], sp);
        assert pad[..|pad| - 1] + [] == pad[..|pad| - 1];
      }
    } else {
      LeadingIgnored(pad, s[..|s| - 1], sp);
      assert (pad + s)[..|pad + s| - 1] == pad + s[..|s| - 1];
    }
  }

  lemma {:induction false} TrailingIgnored(s: string, pad: string, sp: char)
    requires forall i :: 0 <= i < |pad| ==> pad[i] == sp
    ensures CutAll(s + pad, sp) == if pad == [] then CutAll(s, sp) else Cut(Words(s, sp), [])
    decreases |pad|
  {
    if pad == [] {
      assert s + pad == s;
    } else {
      var init := pad[..|pad| - 1];
      TrailingIgnored(s, init, sp);
      CutOfNext(s + init, sp, sp);
      assert s + pad == (s + init) + [sp];
    }
  }

  lemma PaddingIgnored(s: string, i: nat, j: nat, sp: char)
    requires i <= j <= |s| && forall k :: 0 <= k < i || j <= k < |s| ==> s[k] == sp
    ensures Words(s[i..j], sp) == Words(s, sp)
  {
    var front, middle, back := s[..i], s[i..j], s[j..];
    LeadingIgnored(front, middle, sp);
    TrailingIgnored(front + middle, back, sp);
    assert s == (front + middle) + back;
  }

  /** Takes off all separators at both ends. */
  method Trim(s: string, c: char) returns (r: string)
    ensures r != [] ==> r[0] != c && r[|r| - 1] != c
    ensures Words(r, c) == Words(s, c)
  {
    var length := |s|;
    var begin, end := 0, length - 1;
    while begin < length && s[begin] == c
      invariant 0 <= begin <= length && forall i :: 0 <= i < begin ==> s[i] == c
    {
      begin := begin + 1;
    }
    while end >= 0 && s[end] == c
      invariant -1 <= end < length && forall i :: end < i < length ==> s[i] == c
    {
      end := end - 1;
    }
    if begin <= end {
      r := s[begin..end + 1];
      PaddingIgnored(s, begin, end + 1, c);
    } else {
      r := "";
      PaddingIgnored(s, length, length, c);
    }
  }

  lemma CutOneMore(s: string, k: nat, sp: char)
    requires k < |s|
    ensures CutAll(s[..k + 1], sp) == CutNext(CutAll(s[..k], sp), s[k], sp)
  {
    assert s[..k + 1] == s[..k] + [s[k]];
    CutOfNext(s[..k], s[k], sp);
  }

  lemma SliceOneMore(s: string, i: nat, k: nat)
    requires i <= k < |s|
    ensures s[i..k + 1] == s[i..k] + [s[k]]
  {
  }

  /** Cuts a string into its words. */
  method Split(s: string, sp: char) returns (ret: seq<string>)
    ensures ret == Words(s, sp) && AllWords(ret, sp)
  {
    WordsAreWords(s, sp);
    var t := Trim(s, sp);
    var length := |t|;
    var begin, end := 0, 0;
    ret := [];
    while end < length
      invariant 0 <= begin <= end <= length
      invariant CutAll(t[..end], sp) == Cut(ret, t[begin..end])
      invariant begin == end < length ==> t[end] != sp
    {
      CutOneMore(t, end, sp);
      if t[end] != sp {
        SliceOneMore(t, begin, end);
        end := end + 1;
      } else {
        ret := ret + [t[begin..end]];
        ghost var stop := end;
        end := end + 1;
        while t[end] == sp
          invariant stop < end < length && CutAll(t[..end], sp) == Cut(ret, [])
          decreases length - end
        {
          CutOneMore(t, end, sp);
          end := end + 1;
        }
        begin := end;
      }
    }
    assert t[..end] == t;
    if begin < end {
      ret := ret + [t[begin..end]];
    }
  }

  /** The words of a path that begins at the root. */
  ghost predicate IsPath(ws: seq<string>) {
    ws != [] && ws[0] == ROOT && AllWords(ws, SLASH)
  }

  /** A place in the tree: the path goes down from the root, and only down. */
  ghost predicate IsPlace(ws: seq<string>) {
    IsPath(ws) && ROOT !in ws[1..] && UP !in ws[1..]
  }

  /** A directory entry that counts: "." and ".." are passed over in a listing. */
  predicate Listed(there: (string, string) -> bool, directory: string, name: string) {
    name != ROOT && name != UP && there(directory, name)
  }

  /** Walking as a stack: a word goes down if it is there, ".." goes up unless at the root. */
  ghost function Walk(ws: seq<string>, steps: seq<string>, there: (string, string) -> bool): (r: Option<seq<string>>)
    requires ws != []
    ensures r.Some? ==> r.value != []
    decreases |steps|
  {
    if steps == [] then Some(ws)
    else if steps[0] == UP then
      if |ws| == 1 then None else Walk(ws[..|ws| - 1], steps[1..], there)
    else if Listed(there, Join(ws, SLASH), steps[0]) then Walk(ws + [steps[0]], steps[1..], there)
    else None
  }

  /** A walk that succeeds ends at a path from the root; from a place in the tree, at a place in it. */
  lemma {:induction false} WalkStaysInside(ws: seq<string>, steps: seq<string>, there: (string, string) -> bool)
    requires IsPath(ws) && AllWords(steps, SLASH)
    ensures Walk(ws, steps, there).Some? ==> IsPath(Walk(ws, steps, there).value)
    ensures Walk(ws, steps, there).Some? && IsPlace(ws) ==> IsPlace(Walk(ws, steps, there).value)
    decreases |steps|
  {
    if steps != [] {
      if steps[0] == UP {
        if |ws| > 1 {
          assert ws[..|ws| - 1][1..] == ws[1..][..|ws| - 2];
          WalkStaysInside(ws[..|ws| - 1], steps[1..], there);
        }
      } else if Listed(there, Join(ws, SLASH), steps[0]) {
        assert (ws + [steps[0]])[1..] == ws[1..] + [steps[0]];
        WalkStaysInside(ws + [steps[0]], steps[1..], there);
      }
    }
  }

  /** One walk along two paths is a walk along the first and then along the second. */
  lemma {:induction false} WalkInTwo(ws: seq<string>, a: seq<string>, b: seq<string>, there: (string, string) -> bool)
    requires ws != []
    ensures Walk(ws, a + b, there) ==
            match Walk(ws, a, there) { case None => None case Some(place) => Walk(place, b, there) }
    decreases |a|
  {
    if a == [] {
      assert a + b == b;
    } else {
      assert (a + b)[1..] == a[1..] + b;
      if a[0] == UP {
        if |ws| > 1 { WalkInTwo(ws[..|ws| - 1], a[1..], b, there); }
      } else if Listed(there, Join(ws, SLASH), a[0]) {
        WalkInTwo(ws + [a[0]], a[1..], b, there);
      }
    }
  }

  lemma {:induction false} CutAfterBreak(x: string, b: string, sp: char)
    requires CutAll(x, sp).open == []
    ensures CutAll(x + b, sp) == Cut(CutAll(x, sp).done + CutAll(b, sp).done, CutAll(b, sp).open)
    decreases |b|
  {
    if b == [] {
      assert x + b == x && CutAll(x, sp).done + [] == CutAll(x, sp).done;
    } else {
      var init, c := b[..|b| - 1], b[|b| - 1];
      CutAfterBreak(x, init, sp);
      CutOfNext(x + init, c, sp);
      assert x + b == (x + init) + [c];
    }
  }

  /** The words of two paths put together are the words of the one and then of the other. */
  lemma WordsOfTwo(a: string, b: string, sp: char)
    ensures Words(a + [sp] + b, sp) == Words(a, sp) + Words(b, sp)
  {
    TrailingIgnored(a, [sp], sp);
    CutAfterBreak(a + [sp], b, sp);
  }

  /** Changing the directory along "a/b" goes where changing along a and then along b goes. */
  lemma ChangeInTwo(ws: seq<string>, a: string, b: string, there: (string, string) -> bool)
    requires ws != []
    ensures Walk(ws, Words(a + [SLASH] + b, SLASH), there) ==
            match Walk(ws, Words(a, SLASH), there) {
              case None => None
              case Some(place) => Walk(place, Words(b, SLASH), there)
            }
  {
    WordsOfTwo(a, b, SLASH);
    WalkInTwo(ws, Words(a, SLASH), Words(b, SLASH), there);
  }

  lemma OneWord(w: string)
    requires w != [] && '/' !in w
    ensures Words(w, SLASH) == [w]
  {
    CutOfWord([], w, SLASH);
    assert [] + w == w;
  }

  /**
    A request of one word: it goes down exactly if the directory lists the word and the word is
    neither "." nor ".."; ".." goes up by one, and fails at the root.
  */
  lemma ChangeByOne(ws: seq<string>, w: string, there: (string, string) -> bool)
    requires IsPath(ws) && w != [] && '/' !in w
    ensures w != ".." ==> (Walk(ws, Words(w, '/'), there).Some? <==> w != "." && there(Join(ws, '/'), w))
    ensures w != ".." && w != "." && there(Join(ws, '/'), w) ==>
              var ws' := Walk(ws, Words(w, '/'), there).value;
              ws' == ws + [w] && Join(ws', '/') == Join(ws, '/') + "/" + w
    ensures w == ".." ==> Walk(ws, Words(w, '/'), there) == if |ws| == 1 then None else Some(ws[..|ws| - 1])
  {
    OneWord(w);
    JoinNext(ws, w, '/');
    assert [w][1..] == [];
  }

  /** Going down and up again leads back. */
  lemma DownAndUp(ws: seq<string>, w: string, there: (string, string) -> bool)
    requires IsPath(ws) && w != [] && '/' !in w && w != "." && w != ".." && there(Join(ws, '/'), w)
    ensures Walk(ws, Words(w + "/" + "..", '/'), there) == Some(ws)
  {
    ChangeByOne(ws, w, there);
    ChangeInTwo(ws, w, "..", there);
    OneWord("..");
    assert [".."][1..] == [] && (ws + [w])[..|ws|] == ws;
  }

  /** Goes along a requested path; `there` tells what the directories hold. */
  method Cwd(currentPath: string, cwdPath: string, there: (string, string) -> bool, ghost ws: seq<string>)
    returns (path: string, pathExist: bool)
    requires IsPath(ws) && currentPath == Join(ws, SLASH)
    ensures var w := Walk(ws, Words(cwdPath, SLASH), there);
            && pathExist == w.Some?
            && path == if w.Some? then Join(w.value, SLASH) else currentPath
    ensures IsPlace(ws) ==> exists ws' :: IsPlace(ws') && path == Join(ws', SLASH)
  {
    var pathSplit := Split(cwdPath, SLASH);
    WalkStaysInside(ws, pathSplit, there);
    var tempPath := currentPath;
    ghost var at := ws;
    assert pathSplit[0..] == pathSplit;
    for it := 0 to |pathSplit|
      invariant IsPath(at) && tempPath == Join(at, SLASH)
      invariant Walk(at, pathSplit[it..], there) == Walk(ws, pathSplit, there)
    {
      assert pathSplit[it..][0] == pathSplit[it] && pathSplit[it..][1..] == pathSplit[it + 1..];
      if pathSplit[it] == UP {
        CutInvertsJoin(at, SLASH);
        var tempSplit := Split(tempPath, SLASH);
        if |tempSplit| == 1 { return currentPath, false; }
        tempPath := JoinAllButLast(tempSplit);
        at := at[..|at| - 1];
      } else {
        if !Listed(there, tempPath, pathSplit[it]) { return currentPath, false; }
        JoinNext(at, pathSplit[it], SLASH);
        tempPath := tempPath + [SLASH] + pathSplit[it];
        at := at + [pathSplit[it]];
      }
    }
    return tempPath, true;
  }

  method JoinAllButLast(ws: seq<string>) returns (path: string)
    requires |ws| > 1
    ensures path == Join(ws[..|ws| - 1], SLASH)
  {
    path := ws[0];
    assert ws[..1] == [ws[0]];
    for i := 1 to |ws| - 1
      invariant path == Join(ws[..i], SLASH)
    {
      JoinNext(ws[..i], ws[i], SLASH);
      assert ws[..i + 1] == ws[..i] + [ws[i]];
      path := path + [SLASH] + ws[i];
    }
  }
}
