/** Dot-segment removal in the redirect code of wget, against section 5.2.4 of RFC 3986. */
module Url {
  const MAX_URL: nat := 512
  const MAX_SEGMENTS: nat := 64

  // ---- RFC 3986, section 5.2.4 --------------------------------------------------------------------

  predicate StartsWith(s: string, prefix: string) { |prefix| <= |s| && s[..|prefix|] == prefix }

  /** Where the first slash at or after `i` stands, or the end. */
  function NextSlash(s: string, i: nat): (k: nat)
    requires i <= |s|
    ensures i <= k <= |s| && (k < |s| ==> s[k] == '/') && forall j | i <= j < k :: s[j] != '/'
    decreases |s| - i
  {
    if i == |s| || s[i] == '/' then i else NextSlash(s, i + 1)
  }

  /** The text without its last segment and that segment's slash. */
  function WithoutLast(s: string): string {
    if s == "" then "" else if s[|s| - 1] == '/' then s[..|s| - 1] else WithoutLast(s[..|s| - 1])
  }

  /** remove_dot_segments, rule by rule. */
  function RemoveDots(input: string, output: string): string
    decreases |input|
  {
    if input == "" then output
    else if StartsWith(input, "../") then RemoveDots(input[3..], output)
    else if StartsWith(input, "./") then RemoveDots(input[2..], output)
    else if StartsWith(input, "/./") then RemoveDots("/" + input[3..], output)
    else if input == "/." then RemoveDots("/", output)
    else if StartsWith(input, "/../") then RemoveDots("/" + input[4..], WithoutLast(output))
    else if input == "/.." then RemoveDots("/", WithoutLast(output))
    else if input == "." || input == ".." then output
    else
      var k := NextSlash(input, if input[0] == '/' then 1 else 0);
      RemoveDots(input[k..], output + input[..k])
  }

  // ---- Segments -------------------------------------------------------------------------------------

  /** The pieces between the slashes; never empty. */
  function Split(s: string): (parts: seq<string>)
    ensures parts != []
    decreases |s|
  {
    var k := NextSlash(s, 0);
    if k == |s| then [s] else [s[..k]] + Split(s[k + 1..])
  }

  /** Every segment with a slash before it. */
  function Slashed(parts: seq<string>): string {
    if parts == [] then "" else "/" + parts[0] + Slashed(parts[1..])
  }

  predicate Plain(s: string) { forall i | 0 <= i < |s| :: s[i] != '/' }

  predicate AllPlain(parts: seq<string>) { forall i | 0 <= i < |parts| :: Plain(parts[i]) }

  predicate Dots(s: string) { s == "." || s == ".." }

  /** The segments still standing once `part` has been seen. */
  function Step(stack: seq<string>, part: string): seq<string> {
    if part == "." then stack
    else if part == ".." then (if stack == [] then [] else stack[..|stack| - 1])
    else stack + [part]
  }

  function Walk(stack: seq<string>, parts: seq<string>): seq<string>
    decreases |parts|
  {
    if parts == [] then stack else Walk(Step(stack, parts[0]), parts[1..])
  }

  /** What a whole list of segments leaves: a dot segment at the end leaves a directory. */
  function Cleaned(stack: seq<string>, parts: seq<string>): seq<string>
    requires parts != []
  {
    Walk(stack, parts) + if Dots(parts[|parts| - 1]) then [""] else []
  }

  /** Most segments standing at once. */
  function Depth(parts: seq<string>, n: nat): nat {
    if parts == [] then n
    else
      var d := Depth(parts[1..],
                     if parts[0] == "." then n else if parts[0] == ".." then (if n == 0 then 0 else n - 1) else n + 1);
      if d < n then n else d
  }

  // ---- The two agree ----------------------------------------------------------------------------------

  lemma {:induction false} SplitPlain(s: string)
    ensures AllPlain(Split(s))
    decreases |s|
  {
    var k := NextSlash(s, 0);
    if k < |s| {
      SplitPlain(s[k + 1..]);
    }
  }

  lemma {:induction false} SplitJoins(s: string)
    ensures Slashed(Split(s)) == "/" + s
    decreases |s|
  {
    hide NextSlash;
    var k := NextSlash(s, 0);
    if k == |s| {
      assert Slashed([s]) == "/" + s;
    } else {
      var rest := Split(s[k + 1..]);
      SplitJoins(s[k + 1..]);
      assert s == s[..k] + ("/" + s[k + 1..]);
      assert ([s[..k]] + rest)[1..] == rest;
    }
  }

  lemma {:induction false} SlashedAppend(parts: seq<string>, p: string)
    ensures Slashed(parts + [p]) == Slashed(parts) + "/" + p
    decreases |parts|
  {
    if parts == [] {
      assert [] + [p] == [p];
      assert Slashed([p]) == "/" + p;
    } else {
      assert (parts + [p])[1..] == parts[1..] + [p];
      SlashedAppend(parts[1..], p);
    }
  }

  lemma {:induction false} WithoutLastPlain(s: string, p: string)
    requires Plain(p)
    ensures WithoutLast(s + "/" + p) == s
    decreases |p|
  {
    var t := s + "/" + p;
    if p == "" {
      assert t[..|t| - 1] == s;
    } else {
      assert t[..|t| - 1] == s + "/" + p[..|p| - 1];
      WithoutLastPlain(s, p[..|p| - 1]);
    }
  }

  lemma WithoutLastSlashed(stack: seq<string>)
    requires AllPlain(stack)
    ensures WithoutLast(Slashed(stack)) == Slashed(Step(stack, ".."))
  {
    if stack != [] {
      var n := |stack| - 1;
      assert stack == stack[..n] + [stack[n]];
      SlashedAppend(stack[..n], stack[n]);
      WithoutLastPlain(Slashed(stack[..n]), stack[n]);
    }
  }

  lemma Head(p: string, tail: string, d: string)
    requires Plain(p) && Plain(d) && (tail == "" || tail[0] == '/')
    ensures StartsWith("/" + p + tail, "/" + d + "/") <==> p == d && tail != ""
    ensures "/" + p + tail == "/" + d <==> p == d && tail == ""
  {
    var input, prefix := "/" + p + tail, "/" + d + "/";
    assert forall i | 0 <= i < |p| :: input[1 + i] == p[i];
    assert forall i | 0 <= i < |d| :: prefix[1 + i] == d[i];
    assert tail != "" ==> input[1 + |p|] == '/';
    assert prefix[1 + |d|] == '/';
    if StartsWith(input, prefix) {
      assert forall i | 0 <= i < |prefix| :: input[..|prefix|][i] == input[i];
      assert |p| == |d|;
      assert forall i | 0 <= i < |p| :: p[i] == input[1 + i] == prefix[1 + i] == d[i];
    }
    assert p == d && tail != "" ==> input[..|prefix|] == prefix;
    if input == "/" + d {
      assert forall i | 0 <= i < |d| :: input[1 + i] == d[i];
      assert |p| == |d|;
    }
  }

  /** The rules look no further than the first segment. */
  lemma FirstSegment(p: string, tail: string)
    requires Plain(p) && (tail == "" || tail[0] == '/')
    ensures var input := "/" + p + tail;
            && (StartsWith(input, "/./") <==> p == "." && tail != "") && (input == "/." <==> p == "." && tail == "")
            && (StartsWith(input, "/../") <==> p == ".." && tail != "") && (input == "/.." <==> p == ".." && tail == "")
            && NextSlash(input, 1) == 1 + |p|
  {
    var input := "/" + p + tail;
    Head(p, tail, ".");
    Head(p, tail, "..");
    assert "/" + "." + "/" == "/./" && "/" + ".." + "/" == "/../";
    assert forall i | 0 <= i < |p| :: input[1 + i] == p[i];
    assert tail != "" ==> input[1 + |p|] == '/';
  }

  /** The rules that apply to an absolute path. */
  lemma Rule(input: string, output: string)
    requires input != "" && input[0] == '/'
    ensures RemoveDots(input, output)
            == if StartsWith(input, "/./") then RemoveDots("/" + input[3..], output)
               else if input == "/." then RemoveDots("/", output)
               else if StartsWith(input, "/../") then RemoveDots("/" + input[4..], WithoutLast(output))
               else if input == "/.." then RemoveDots("/", WithoutLast(output))
               else RemoveDots(input[NextSlash(input, 1)..], output + input[..NextSlash(input, 1)])
  {
  }

  /** What the rules do with the first segment of an absolute path. */
  lemma OneSegment(p: string, tail: string, output: string)
    requires Plain(p) && (tail == "" || tail[0] == '/')
    ensures RemoveDots("/" + p + tail, output)
            == if !Dots(p) then RemoveDots(tail, output + "/" + p)
               else RemoveDots(if tail == "" then "/" else tail, if p == "." then output else WithoutLast(output))
  {
    hide RemoveDots, StartsWith, NextSlash, WithoutLast;
    var input := "/" + p + tail;
    FirstSegment(p, tail);
    Rule(input, output);
    if p == "." && tail != "" {
      assert "/" + input[3..] == tail;
    } else if p == ".." && tail != "" {
      assert "/" + input[4..] == tail;
    } else if !Dots(p) {
      assert input[..1 + |p|] == "/" + p && input[1 + |p|..] == tail;
      assert output + ("/" + p) == output + "/" + p;
    }
  }

  lemma Root(output: string)
    ensures RemoveDots("/", output) == output + "/"
  {
    assert "/" + "" + "" == "/" && output + "/" + "" == output + "/";
    OneSegment("", "", output);
  }

  /** remove_dot_segments on an absolute path is a walk over its segments with a stack. */
  lemma {:induction false} RemovesDots(parts: seq<string>, stack: seq<string>)
    requires parts != [] && AllPlain(parts) && AllPlain(stack)
    ensures RemoveDots(Slashed(parts), Slashed(stack)) == Slashed(Cleaned(stack, parts))
    decreases |parts|
  {
    hide RemoveDots, WithoutLast;
    var p, rest := parts[0], parts[1..];
    var next := Step(stack, p);
    OneSegment(p, Slashed(rest), Slashed(stack));
    WithoutLastSlashed(stack);
    SlashedAppend(stack, p);
    if rest != [] {
      assert rest[|rest| - 1] == parts[|parts| - 1];
      RemovesDots(rest, next);
    } else {
      Root(Slashed(next));
      SlashedAppend(next, "");
      assert Slashed(next) + "/" + "" == Slashed(next) + "/";
      Done(Slashed(next));
      assert Walk(stack, parts) == Walk(next, rest) == next && next + [] == next;
    }
  }

  lemma Done(output: string)
    ensures RemoveDots("", output) == output
  {
  }

  // ---- What is left has no dot segments ---------------------------------------------------------------

  predicate Clean(parts: seq<string>) { forall i | 0 <= i < |parts| :: Plain(parts[i]) && !Dots(parts[i]) }

  lemma {:induction false} WalkClean(stack: seq<string>, parts: seq<string>)
    requires Clean(stack) && AllPlain(parts)
    ensures Clean(Walk(stack, parts))
    ensures parts != [] && !Dots(parts[|parts| - 1]) ==> Walk(stack, parts) != []
    decreases |parts|
  {
    if parts != [] {
      assert |parts| == 1 ==> Walk(Step(stack, parts[0]), parts[1..]) == Step(stack, parts[0]);
      WalkClean(Step(stack, parts[0]), parts[1..]);
    }
  }

  /** Without dot segments the walk keeps everything. */
  lemma {:induction false} WalkKeeps(stack: seq<string>, parts: seq<string>)
    requires Clean(parts)
    ensures Walk(stack, parts) == stack + parts
    decreases |parts|
  {
    if parts != [] {
      WalkKeeps(stack + [parts[0]], parts[1..]);
      assert stack + [parts[0]] + parts[1..] == stack + parts;
    } else {
      assert stack + parts == stack;
    }
  }

  lemma SplitHead(p: string, rest: string)
    requires Plain(p)
    ensures Split(p) == [p] && Split(p + "/" + rest) == [p] + Split(rest)
  {
    assert NextSlash(p, 0) == |p|;
    var s := p + "/" + rest;
    assert forall i | 0 <= i < |p| :: s[i] == p[i];
    assert s[|p|] == '/' && NextSlash(s, 0) == |p|;
    assert s[..|p|] == p && s[|p| + 1..] == rest;
  }

  /** Splitting undoes joining. */
  lemma {:induction false} SplitSlashed(parts: seq<string>)
    requires parts != [] && AllPlain(parts)
    ensures Slashed(parts) != "" && Split(Slashed(parts)[1..]) == parts
    decreases |parts|
  {
    hide Split;
    var p, rest := parts[0], parts[1..];
    var s := Slashed(parts)[1..];
    assert s == p + Slashed(rest);
    if rest == [] {
      assert s == p && parts == [p];
      SplitHead(p, "");
    } else {
      SplitSlashed(rest);
      var tail := Slashed(rest)[1..];
      assert s == p + "/" + tail;
      SplitHead(p, tail);
    }
  }

  /** The normal form of an absolute path, as a list of segments. */
  lemma NormalForm(path: string)
    ensures var c := Cleaned([], Split(path)); c != [] && Clean(c) && RemoveDots("/" + path, "") == Slashed(c)
  {
    SplitPlain(path);
    SplitJoins(path);
    RemovesDots(Split(path), []);
    WalkClean([], Split(path));
  }

  /** No "." or ".." segment survives, and the path stays absolute. */
  lemma NoDotsLeft(path: string)
    ensures var r := RemoveDots("/" + path, ""); r != "" && r[0] == '/' && forall p | p in Split(r[1..]) :: !Dots(p)
  {
    NormalForm(path);
    SplitSlashed(Cleaned([], Split(path)));
  }

  /** Removing dot segments twice is removing them once. */
  lemma Idempotent(path: string)
    ensures var r := RemoveDots("/" + path, ""); RemoveDots(r, "") == r
  {
    hide RemoveDots;
    NormalForm(path);
    var c := Cleaned([], Split(path));
    RemovesDots(c, []);
    WalkKeeps([], c);
    assert [] + c == c && c + [] == c;
  }

  // ---- wget's version -----------------------------------------------------------------------------------

  class UrlBuf {
    const bytes: array<char>
    var len: nat

    ghost predicate Valid()
      reads this
    {
      bytes.Length == MAX_URL && len <= MAX_URL
    }

    ghost function Contents(): string
      requires Valid()
      reads this, bytes
    {
      bytes[..len]
    }

    constructor ()
      ensures Valid() && fresh(bytes) && Contents() == ""
    {
      bytes := new char[MAX_URL](_ => ' ');
      len := 0;
    }

    /** push; a piece that does not fit ends the program, which is `false` here. */
    method Push(piece: string) returns (ok: bool)
      requires Valid()
      modifies this, bytes
      ensures Valid() && (ok <==> |old(Contents())| + |piece| <= MAX_URL)
      ensures Contents() == old(Contents()) + if ok then piece else ""
    {
      if len + |piece| > MAX_URL {
        return false;
      }
      forall i | 0 <= i < |piece| {
        bytes[len + i] := piece[i];
      }
      len := len + |piece|;
      ok := true;
    }
  }

  /** The path without the slash in front. */
  function Stripped(path: string): string { if StartsWith(path, "/") then path[1..] else path }

  /** The first loop of push_normalized_path: the segments still standing, unless there are ever too many. */
  method Collect(parts: seq<string>, segments: array<string>) returns (ok: bool, count: nat, directory: bool)
    requires segments.Length == MAX_SEGMENTS
    modifies segments
    ensures ok <==> Depth(parts, 0) <= MAX_SEGMENTS
    ensures ok ==> count <= MAX_SEGMENTS && segments[..count] == Walk([], parts)
    ensures ok ==> (directory <==> parts != [] && Dots(parts[|parts| - 1]))
  {
    count, directory := 0, false;
    for i := 0 to |parts|
      invariant count <= MAX_SEGMENTS && Walk([], parts) == Walk(segments[..count], parts[i..])
      invariant Depth(parts, 0) <= MAX_SEGMENTS <==> Depth(parts[i..], count) <= MAX_SEGMENTS
      invariant directory <==> i > 0 && Dots(parts[i - 1])
    {
      var segment := parts[i];
      assert parts[i..][0] == segment && parts[i..][1..] == parts[i + 1..];
      directory := Dots(segment);
      ghost var stack := segments[..count];
      if segment == "." {
      } else if segment == ".." {
        count := if count == 0 then 0 else count - 1;
        assert segments[..count] == Step(stack, segment);
      } else {
        if count == MAX_SEGMENTS {
          DepthGrows(parts[i + 1..], count + 1);
          return false, count, directory;
        }
        segments[count] := segment;
        count := count + 1;
        assert segments[..count] == Step(stack, segment);
      }
    }
    assert parts[|parts|..] == [];
    ok := true;
  }

  lemma DepthGrows(parts: seq<string>, n: nat)
    ensures Depth(parts, n) >= n
  {
  }

  lemma {:induction false} SlashedConcat(a: seq<string>, b: seq<string>)
    ensures Slashed(a + b) == Slashed(a) + Slashed(b)
    decreases |a|
  {
    if a == [] {
      assert a + b == b;
    } else {
      assert (a + b)[1..] == a[1..] + b;
      SlashedConcat(a[1..], b);
    }
  }

  /** Text written so far. */
  ghost function Written(segments: seq<string>, i: nat): string
    requires i <= |segments|
  {
    if i == 0 then "/" else Slashed(segments[..i])
  }

  lemma WrittenNext(segments: seq<string>, i: nat)
    requires i < |segments|
    ensures Written(segments, i + 1) == Written(segments, i) + (if i > 0 then "/" else "") + segments[i]
    ensures |Written(segments, i + 1)| <= |Slashed(segments)|
  {
    assert segments[..i + 1] == segments[..i] + [segments[i]];
    SlashedAppend(segments[..i], segments[i]);
    assert segments[..i + 1] + segments[i + 1..] == segments;
    SlashedConcat(segments[..i + 1], segments[i + 1..]);
  }

  /** push_normalized_path appends exactly what remove_dot_segments makes of the path, an absolute one or one that
      lacks only its first slash; it gives up exactly when more than 64 segments stand at once or the URL grows past
      512 bytes. */
  method PushNormalizedPath(out: UrlBuf, path: string) returns (ok: bool)
    requires out.Valid()
    modifies out, out.bytes
    ensures out.Valid()
    ensures ok ==> out.Contents() == old(out.Contents()) + RemoveDots("/" + Stripped(path), "")
    ensures ok
            <==> Depth(Split(Stripped(path)), 0) <= MAX_SEGMENTS &&
                 |old(out.Contents())| + |RemoveDots("/" + Stripped(path), "")| <= MAX_URL
  {
    hide RemoveDots, Split, Walk, Depth, Slashed;
    var parts := Split(Stripped(path));
    NormalForm(Stripped(path));
    var segments := new string[MAX_SEGMENTS](_ => "");
    var count, directory;
    ok, count, directory := Collect(parts, segments);
    if !ok {
      return;
    }
    ok := WriteSegments(out, segments[..count], directory);
  }

  /** The second loop of push_normalized_path. */
  method WriteSegments(out: UrlBuf, stack: seq<string>, directory: bool) returns (ok: bool)
    requires out.Valid() && (stack != [] || directory)
    modifies out, out.bytes
    ensures out.Valid()
    ensures var text := Slashed(stack + if directory then [""] else []);
            (ok <==> |old(out.Contents())| + |text| <= MAX_URL) && (ok ==> out.Contents() == old(out.Contents()) + text)
  {
    hide Slashed, Written;
    Ending(stack, directory);
    ok := out.Push("/");
    if !ok {
      return;
    }
    for i := 0 to |stack|
      invariant out.Valid() && out.Contents() == old(out.Contents()) + Written(stack, i)
    {
      WrittenNext(stack, i);
      if i > 0 {
        ok := out.Push("/");
        if !ok {
          return;
        }
      }
      ok := out.Push(stack[i]);
      if !ok {
        return;
      }
    }
    if directory && |stack| > 0 {
      ok := out.Push("/");
    }
  }

  lemma Ending(stack: seq<string>, directory: bool)
    ensures Slashed(stack + if directory then [""] else []) == Slashed(stack) + if directory then "/" else ""
    ensures stack != [] ==> |Slashed(stack)| >= 1
    ensures Written(stack, 0) == "/" && (stack == [] ==> Slashed(stack) == "")
    ensures (stack != [] ==> Written(stack, |stack|) == Slashed(stack))
  {
    assert stack[..|stack|] == stack;
    SlashedAppend(stack, "");
    assert Slashed(stack) + "/" + "" == Slashed(stack) + "/";
    assert stack + [] == stack;
  }
}
