/**
 * `fetch_images`: the retrieval loop. The browser is a sequence of snapshots,
 * one per pass of the outer loop: snapshot `p` lists, for each thumbnail the
 * result grid held when pass `p` queried it, what happens when that thumbnail
 * is processed in that pass. The loop runs at most one pass per snapshot; the
 * scraper itself has no such bound.
 */
module Retrieval {
  import opened Wrappers
  import opened Text
  import opened ImageSink

  /** What clicking a thumbnail and waiting for its preview yields. */
  datatype Preview =
    | PreviewFailed      // the click, the 10-second wait or reading the attribute raised
    | NoSrc             // the preview has no `src`, so the `'http' in src` test raises
    | Src(src: string)

  /** Everything the browser, the network, the codec and the filesystem do for one thumbnail in one pass. */
  datatype Probe = Probe(
    scrolls: bool,                     // scrolling it into view succeeds
    preview: Preview,
    response: Option<seq<byte>>,       // the body of the GET of `src`, None when the request raises
    codec: Codec)

  /** How processing one thumbnail ends. */
  datatype Outcome =
    | ScrollFailed
    | ProcessingRaised   // an exception inside the second `try`, persisting included
    | NoHttpSrc
    | EmptyContents
    | PersistFailed
    | Persisted(path: string)

  /** One thumbnail processed: the pass, its index in that pass's snapshot, and the outcome. */
  datatype Visit = Visit(pass: nat, index: nat, outcome: Outcome)

  /** How the modelled run ends. */
  datatype Ending =
    | NotStarted          // the `while` test failed at once
    | TargetReached       // the early `return`
    | SnapshotsExhausted  // no snapshot is left for another pass; the scraper would keep polling

  /** The destination folder: spaces in the query become underscores, joined under `path`. */
  function FolderName(path: string, query: string): (folder: string)
    ensures |query| <= |folder| && forall i :: |folder| - |query| <= i < |folder| ==> folder[i] != ' '
  {
    Join(path, ReplaceChar(query, ' ', '_'))
  }

  /**
   * The folder ends with the query in which every space became an underscore
   * and every other character stayed. Unless that rewritten query is itself
   * an absolute path, the folder is `path`, a `/` when `path` is non-empty and
   * does not already end with one, then the rewritten query.
   */
  lemma FolderNameShape(path: string, query: string)
    ensures var name := ReplaceChar(query, ' ', '_');
      var folder := FolderName(path, query);
      |name| == |query| && ' ' !in name &&
      (forall i :: 0 <= i < |query| && query[i] != ' ' ==> name[i] == query[i]) &&
      |name| <= |folder| && folder[|folder| - |name|..] == name &&
      (IsAbsolute(query) ==> folder == name) &&
      (!IsAbsolute(query) ==> |path| <= |folder| && folder[..|path|] == path) &&
      (!IsAbsolute(query) && path != [] && path[|path| - 1] != '/' ==> folder == path + "/" + name) &&
      (!IsAbsolute(query) && (path == [] || path[|path| - 1] == '/') ==> folder == path + name)
  {
    var name := ReplaceChar(query, ' ', '_');
    assert forall i :: 0 <= i < |name| ==> name[i] != ' ';
    assert IsAbsolute(query) <==> IsAbsolute(name);
  }

  /** Replacing the spaces of two space-free words joined by a space joins them by an underscore. */
  lemma UnderscoreJoinsWords(a: string, b: string)
    requires ' ' !in a && ' ' !in b
    ensures ReplaceChar(a + " " + b, ' ', '_') == a + "_" + b
  {
    var q, words := a + " " + b, a + "_" + b;
    var name := ReplaceChar(q, ' ', '_');
    forall i | 0 <= i < |q|
      ensures name[i] == words[i]
    {
      if i < |a| {
        assert q[i] == a[i] && words[i] == a[i];
      } else if i > |a| {
        assert q[i] == b[i - |a| - 1] && words[i] == b[i - |a| - 1];
      }
    }
  }

  /**
   * Two words under a plain directory: `"red panda"` under `images` gives
   * `images/red_panda`.
   */
  lemma TwoWordFolder(path: string, a: string, b: string)
    requires path != [] && path[|path| - 1] != '/'
    requires ' ' !in a && ' ' !in b && !IsAbsolute(a)
    ensures FolderName(path, a + " " + b) == path + "/" + a + "_" + b
  {
    var words := a + "_" + b;
    UnderscoreJoinsWords(a, b);
    FolderNameShape(path, a + " " + b);
    assert path + "/" + words == path + "/" + a + "_" + b;
  }

  /**
   * A `..` segment is joined as text like any other: the folder string still
   * begins with `path` and a `/`, yet on disk a leading `..` takes it to the
   * parent of `path`, so it can name a directory outside `path`.
   */
  lemma ParentSegmentKept(path: string, q: string)
    requires path != [] && path[|path| - 1] != '/'
    requires ' ' !in q
    ensures FolderName(path, "../" + q) == path + "/../" + q
  {
    FolderNameShape(path, "../" + q);
    var name := ReplaceChar("../" + q, ' ', '_');
    assert name == "../" + q;
  }

  /** `"../etc"` under `images` gives `images/../etc`, which is `etc` beside `images`. */
  lemma DotDotFolder()
    ensures FolderName("images", "../etc") == "images/../etc"
  {
    assert "../" + "etc" == "../etc";
    assert "images" + "/../" + "etc" == "images/../etc";
    ParentSegmentKept("images", "etc");
  }

  /** `get_image_contents`: the response body, or the empty string when the request raised. */
  function GetImageContents(response: Option<seq<byte>>): (contents: seq<byte>)
    ensures response.Some? ==> contents == response.value
    ensures response.None? ==> contents == []
    ensures contents != [] ==> response == Some(contents)
  {
    match response
    case None => []
    case Some(body) => body
  }

  /** Processing one thumbnail: the body of the inner `for` loop. */
  function Attempt(p: Probe, folder: string, sha1: Digest): (o: Outcome)
    ensures o.Persisted? ==> ReachesCheck(o) && p.scrolls && p.preview.Src? && p.response.Some?
    ensures o.Persisted? ==> |folder| <= |o.path| && o.path[..|folder|] == folder
  {
    if !p.scrolls then ScrollFailed
    else match p.preview
      case PreviewFailed => ProcessingRaised
      case NoSrc => ProcessingRaised
      case Src(src) =>
        if !Contains(src, "http") then NoHttpSrc
        else
          var contents := GetImageContents(p.response);
          if contents == [] then EmptyContents
          else match PersistImage(contents, folder, sha1, p.codec)
            case Saved(path) => Persisted(path)
            case NotSaved => PersistFailed
            case Raised => ProcessingRaised
  }

  /** Whether the `image_count >= max` test runs after this outcome (it does unless a `continue` skipped it). */
  predicate ReachesCheck(o: Outcome)
    ensures o.Persisted? ==> ReachesCheck(o)
  {
    !o.ScrollFailed? && !o.ProcessingRaised?
  }

  /**
   * A thumbnail is persisted exactly when it scrolls, its preview has a `src`
   * containing "http", the fetch returns non-empty bytes and `persist_image`
   * returns True; the file is then named by the fetched bytes. Every other
   * outcome is a skip.
   */
  lemma AttemptPersistsIff(p: Probe, folder: string, sha1: Digest)
    ensures var o := Attempt(p, folder, sha1);
      o.Persisted? <==>
        p.scrolls && p.preview.Src? && Contains(p.preview.src, "http") &&
        GetImageContents(p.response) != [] &&
        PersistImage(GetImageContents(p.response), folder, sha1, p.codec).Saved?
    ensures var o := Attempt(p, folder, sha1);
      o.Persisted? ==> o.path == FilePath(folder, sha1, GetImageContents(p.response))
    ensures Attempt(p, folder, sha1).Persisted? ==> ReachesCheck(Attempt(p, folder, sha1))
  {
    if p.scrolls && p.preview.Src? && Contains(p.preview.src, "http") {
      var contents := GetImageContents(p.response);
      if contents != [] {
        assert Attempt(p, folder, sha1) == match PersistImage(contents, folder, sha1, p.codec)
          case Saved(path) => Persisted(path)
          case NotSaved => PersistFailed
          case Raised => ProcessingRaised;
      }
    }
  }

  /** `image_count` after the given visits: one per persisted thumbnail. */
  function Count(vs: seq<Visit>): (n: nat)
    ensures n <= |vs|
  {
    if vs == [] then 0
    else Count(vs[..|vs| - 1]) + (if vs[|vs| - 1].outcome.Persisted? then 1 else 0)
  }

  /** The files written by the given visits, in order. */
  function SavedPaths(vs: seq<Visit>): (paths: seq<string>)
    ensures |paths| == Count(vs)
  {
    if vs == [] then []
    else
      var last := vs[|vs| - 1];
      SavedPaths(vs[..|vs| - 1]) + (if last.outcome.Persisted? then [last.outcome.path] else [])
  }

  /** The count never decreases and rises by at most one per visit. */
  lemma {:induction false} CountPrefix(vs: seq<Visit>, j: nat, k: nat)
    requires j <= k <= |vs|
    ensures Count(vs[..j]) <= Count(vs[..k]) <= Count(vs[..j]) + (k - j)
  {
    if j < k {
      CountPrefix(vs, j, k - 1);
      assert vs[..k][..k - 1] == vs[..k - 1];
    }
  }

  /** Each visit was to a thumbnail of its pass's snapshot, with the outcome that thumbnail produces. */
  predicate Faithful(vs: seq<Visit>, snapshots: seq<seq<Probe>>, folder: string, sha1: Digest)
  {
    forall k :: 0 <= k < |vs| ==>
      vs[k].pass < |snapshots| && vs[k].index < |snapshots[vs[k].pass]| &&
      vs[k].outcome == Attempt(snapshots[vs[k].pass][vs[k].index], folder, sha1)
  }

  /**
   * Every pass before `pass` is over: the last visit so far ended its
   * snapshot, and each later pass found its snapshot no longer than the
   * cursor, which was then the count.
   */
  predicate Settled(vs: seq<Visit>, snapshots: seq<seq<Probe>>, pass: nat)
    requires pass <= |snapshots|
  {
    if vs == [] then forall q :: 0 <= q < pass ==> |snapshots[q]| == 0
    else
      var last := vs[|vs| - 1];
      last.pass < pass && last.index + 1 == |snapshots[last.pass]| &&
      forall q :: last.pass < q < pass ==> |snapshots[q]| <= Count(vs)
  }

  /**
   * Visit `v`, made after `prefix`, either continues the pass of the last
   * visit at the next index, or opens a later pass once all earlier passes
   * are over, at the index equal to the count reached so far (the cursor
   * `results_start`).
   */
  predicate Follows(prefix: seq<Visit>, v: Visit, snapshots: seq<seq<Probe>>)
  {
    (prefix != [] && v.pass == prefix[|prefix| - 1].pass && v.index == prefix[|prefix| - 1].index + 1) ||
    (v.pass <= |snapshots| && v.index == Count(prefix) && Settled(prefix, snapshots, v.pass))
  }

  /** Every visit follows the visits before it. */
  predicate Contiguous(vs: seq<Visit>, snapshots: seq<seq<Probe>>)
  {
    forall k {:trigger Follows(vs[..k], vs[k], snapshots)} :: 0 <= k < |vs| ==> Follows(vs[..k], vs[k], snapshots)
  }

  /** No visit happened once the count had reached `max`. */
  predicate BelowTarget(vs: seq<Visit>, max: int)
  {
    forall k :: 0 <= k < |vs| ==> Count(vs[..k]) < max
  }

  /** Within one pass visits go up one index at a time, and passes never go back. */
  lemma {:induction false} VisitsInOrder(vs: seq<Visit>, snapshots: seq<seq<Probe>>, j: nat, k: nat)
    requires Contiguous(vs, snapshots)
    requires j <= k < |vs|
    ensures vs[j].pass <= vs[k].pass
    ensures vs[j].pass == vs[k].pass ==> vs[k].index == vs[j].index + (k - j)
  {
    if j < k {
      VisitsInOrder(vs, snapshots, j, k - 1);
      assert Follows(vs[..k], vs[k], snapshots);
      assert vs[..k][k - 1] == vs[k - 1];
    }
  }

  /**
   * The first visit of a pass is at the count reached before it, whatever the
   * length of the previous snapshot, and every visit of that pass is at or
   * after it.
   */
  lemma PassStartsAtCount(vs: seq<Visit>, snapshots: seq<seq<Probe>>, s: nat, k: nat)
    requires Contiguous(vs, snapshots)
    requires s <= k < |vs| && vs[s].pass == vs[k].pass
    requires s == 0 || vs[s - 1].pass != vs[s].pass
    ensures vs[s].index == Count(vs[..s]) <= vs[k].index
  {
    assert Follows(vs[..s], vs[s], snapshots);
    if s > 0 { assert vs[..s][s - 1] == vs[s - 1]; }
    VisitsInOrder(vs, snapshots, s, k);
  }

  /**
   * Because the cursor is the count and not the snapshot length, a pass that
   * saved fewer images than it attempted is followed by a pass that starts
   * inside the range it already covered: the thumbnail at the new cursor was
   * attempted in the previous pass too.
   */
  lemma CursorRevisits(vs: seq<Visit>, snapshots: seq<seq<Probe>>, s: nat, k: nat)
    requires Contiguous(vs, snapshots)
    requires s < k < |vs|
    requires s == 0 || vs[s - 1].pass != vs[s].pass
    requires vs[s].pass == vs[k - 1].pass != vs[k].pass
    requires vs[k].index <= vs[k - 1].index
    ensures exists j :: s <= j < k && vs[j].pass == vs[k - 1].pass && vs[j].index == vs[k].index
  {
    PassStartsAtCount(vs, snapshots, s, k - 1);
    assert Follows(vs[..k], vs[k], snapshots);
    assert vs[..k][k - 1] == vs[k - 1];
    assert vs[k].index == Count(vs[..k]);
    CountPrefix(vs, s, k);
    VisitsInOrder(vs, snapshots, s, k - 1);
    var j := s + (vs[k].index - vs[s].index);
    VisitsInOrder(vs, snapshots, s, j);
    VisitsInOrder(vs, snapshots, j, k - 1);
    assert vs[j].pass == vs[k - 1].pass && vs[j].index == vs[k].index;
  }

  /** Every file the visits wrote lies under the folder they wrote to. */
  lemma {:induction false} SavedInFolder(vs: seq<Visit>, snapshots: seq<seq<Probe>>, folder: string, sha1: Digest)
    requires Faithful(vs, snapshots, folder, sha1)
    ensures forall p :: p in SavedPaths(vs) ==> |folder| <= |p| && p[..|folder|] == folder
  {
    if vs != [] {
      var init := vs[..|vs| - 1];
      assert Faithful(init, snapshots, folder, sha1) by {
        forall k | 0 <= k < |init| ensures init[k] == vs[k] { }
      }
      SavedInFolder(init, snapshots, folder, sha1);
      var last := vs[|vs| - 1];
      AttemptPersistsIff(snapshots[last.pass][last.index], folder, sha1);
    }
  }

  /** Appending a visit leaves the earlier prefixes alone. */
  lemma AppendKeepsPrefixes(vs: seq<Visit>, v: Visit)
    ensures forall k :: 0 <= k <= |vs| ==> (vs + [v])[..k] == vs[..k]
    ensures Count(vs + [v]) == Count(vs) + (if v.outcome.Persisted? then 1 else 0)
    ensures SavedPaths(vs + [v]) == SavedPaths(vs) + (if v.outcome.Persisted? then [v.outcome.path] else [])
  {
    assert (vs + [v])[..|vs|] == vs;
  }

  /**
   * The visits are a run of the retrieval loop, defined visit by visit: each
   * visit follows the ones before it, was made while the count was below
   * `max`, and has the outcome its probe dictates.
   */
  predicate IsRun(vs: seq<Visit>, snapshots: seq<seq<Probe>>, folder: string, sha1: Digest, max: int)
    decreases |vs|
  {
    vs == [] ||
    var init, v := vs[..|vs| - 1], vs[|vs| - 1];
    IsRun(init, snapshots, folder, sha1, max) && Follows(init, v, snapshots) && Count(init) < max &&
    v.pass < |snapshots| && v.index < |snapshots[v.pass]| &&
    v.outcome == Attempt(snapshots[v.pass][v.index], folder, sha1)
  }

  /** The count of a run never passes `max`: each visit is made below it and adds at most one. */
  lemma RunWithinMax(vs: seq<Visit>, snapshots: seq<seq<Probe>>, folder: string, sha1: Digest, max: int)
    requires IsRun(vs, snapshots, folder, sha1, max)
    ensures vs != [] ==> 1 <= max && Count(vs) <= max
  {
  }

  /** A run has the three trace properties. */
  lemma {:induction false} RunIsTrace(vs: seq<Visit>, snapshots: seq<seq<Probe>>, folder: string, sha1: Digest, max: int)
    requires IsRun(vs, snapshots, folder, sha1, max)
    ensures Faithful(vs, snapshots, folder, sha1) && Contiguous(vs, snapshots) && BelowTarget(vs, max)
  {
    if vs != [] {
      var k := |vs| - 1;
      var init := vs[..k];
      RunIsTrace(init, snapshots, folder, sha1, max);
      forall j | 0 <= j < |vs|
        ensures vs[j].pass < |snapshots| && vs[j].index < |snapshots[vs[j].pass]|
        ensures vs[j].outcome == Attempt(snapshots[vs[j].pass][vs[j].index], folder, sha1)
        ensures Follows(vs[..j], vs[j], snapshots) && Count(vs[..j]) < max
      {
        if j < k {
          assert init[..j] == vs[..j] && init[j] == vs[j];
          assert Follows(init[..j], init[j], snapshots);
        }
      }
    }
  }

  /** A trace with the three properties is a run. */
  lemma {:induction false} TraceIsRun(vs: seq<Visit>, snapshots: seq<seq<Probe>>, folder: string, sha1: Digest, max: int)
    requires Faithful(vs, snapshots, folder, sha1) && Contiguous(vs, snapshots) && BelowTarget(vs, max)
    ensures IsRun(vs, snapshots, folder, sha1, max)
  {
    if vs != [] {
      var k := |vs| - 1;
      var init := vs[..k];
      forall j | 0 <= j < k
        ensures Follows(init[..j], init[j], snapshots) && Count(init[..j]) < max
      {
        assert init[..j] == vs[..j] && init[j] == vs[j];
        assert Follows(vs[..j], vs[j], snapshots);
      }
      TraceIsRun(init, snapshots, folder, sha1, max);
      assert Follows(vs[..k], vs[k], snapshots);
    }
  }

  /** Every prefix of a run is a run. */
  lemma {:induction false} RunPrefix(vs: seq<Visit>, snapshots: seq<seq<Probe>>, folder: string, sha1: Digest, max: int, n: nat)
    requires IsRun(vs, snapshots, folder, sha1, max) && n <= |vs|
    ensures IsRun(vs[..n], snapshots, folder, sha1, max)
  {
    if n < |vs| {
      assert vs[..|vs| - 1][..n] == vs[..n];
      RunPrefix(vs[..|vs| - 1], snapshots, folder, sha1, max, n);
    } else {
      assert vs[..n] == vs;
    }
  }

  /**
   * After a given run, at most one visit can come next: the loop either
   * continues its pass at the next index, or opens the first later pass
   * whose snapshot reaches past the cursor.
   */
  lemma FollowsUnique(vs: seq<Visit>, v: Visit, w: Visit, snapshots: seq<seq<Probe>>)
    requires Follows(vs, v, snapshots) && v.pass < |snapshots| && v.index < |snapshots[v.pass]|
    requires Follows(vs, w, snapshots) && w.pass < |snapshots| && w.index < |snapshots[w.pass]|
    ensures v.pass == w.pass && v.index == w.index
  {
  }

  /** Two runs that agree up to their last visit agree on that visit too. */
  lemma NextVisitUnique(a: seq<Visit>, b: seq<Visit>, snapshots: seq<seq<Probe>>, folder: string, sha1: Digest, max: int)
    requires IsRun(a, snapshots, folder, sha1, max) && IsRun(b, snapshots, folder, sha1, max)
    requires |a| == |b| > 0 && a[..|a| - 1] == b[..|b| - 1]
    ensures a == b
  {
    var vs, v, w := a[..|a| - 1], a[|a| - 1], b[|b| - 1];
    assert Follows(vs, v, snapshots) && v.pass < |snapshots| && v.index < |snapshots[v.pass]|;
    assert Follows(vs, w, snapshots) && w.pass < |snapshots| && w.index < |snapshots[w.pass]|;
    FollowsUnique(vs, v, w, snapshots);
    assert a == vs + [v] && b == vs + [w];
  }

  /** Runs over the same snapshots agree wherever both are defined: one is a prefix of the other. */
  lemma {:induction false} RunsAgree(a: seq<Visit>, b: seq<Visit>, snapshots: seq<seq<Probe>>, folder: string, sha1: Digest, max: int)
    requires IsRun(a, snapshots, folder, sha1, max) && IsRun(b, snapshots, folder, sha1, max)
    requires |a| <= |b|
    ensures a == b[..|a|]
  {
    if a != [] {
      var n := |a| - 1;
      RunPrefix(b, snapshots, folder, sha1, max, |a|);
      var b' := b[..|a|];
      RunPrefix(b', snapshots, folder, sha1, max, n);
      RunsAgree(a[..n], b'[..n], snapshots, folder, sha1, max);
      assert b'[..n][..n] == b'[..n];
      NextVisitUnique(a, b', snapshots, folder, sha1, max);
    }
  }

  /**
   * Reaching `max` does not mean `max` distinct files: when a thumbnail that
   * fails to scroll is followed by one that is saved, the next pass starts at
   * the count, 1, and saves that second thumbnail again, to the same file.
   */
  lemma CountedTwice(folder: string, sha1: Digest, bad: Probe, good: Probe)
    requires !bad.scrolls && Attempt(good, folder, sha1).Persisted?
    ensures var o := Attempt(good, folder, sha1);
      var vs := [Visit(0, 0, ScrollFailed), Visit(0, 1, o), Visit(1, 1, o)];
      IsRun(vs, [[bad, good], [bad, good]], folder, sha1, 2) && Count(vs) == 2 && SavedPaths(vs) == [o.path, o.path]
  {
    var o := Attempt(good, folder, sha1);
    var snapshots := [[bad, good], [bad, good]];
    var v0, v1, v2 := Visit(0, 0, ScrollFailed), Visit(0, 1, o), Visit(1, 1, o);
    assert IsRun([v0], snapshots, folder, sha1, 2) by {
      assert [v0][..0] == [] && Count([]) == 0;
      assert IsRun([], snapshots, folder, sha1, 2);
      assert Follows([], v0, snapshots);
      assert Attempt(bad, folder, sha1) == ScrollFailed;
    }
    assert IsRun([v0, v1], snapshots, folder, sha1, 2) by {
      assert [v0, v1][..1] == [v0];
    }
    assert Count([v0, v1]) == 1 by {
      assert [v0, v1][..1] == [v0] && [v0][..0] == [];
    }
    assert Settled([v0, v1], snapshots, 1);
    assert [v0, v1, v2][..2] == [v0, v1];
  }

  /**
   * A run is finished when the `while` test fails, because the count reached
   * `max`, or when no snapshot is left for another pass.
   */
  predicate Finished(vs: seq<Visit>, snapshots: seq<seq<Probe>>, max: int)
  {
    Count(vs) >= max || Settled(vs, snapshots, |snapshots|)
  }

  /** Every visit of a run was made before the run was finished. */
  lemma UnfinishedBeforeLast(c: seq<Visit>, snapshots: seq<seq<Probe>>, folder: string, sha1: Digest, max: int)
    requires IsRun(c, snapshots, folder, sha1, max) && c != []
    ensures !Finished(c[..|c| - 1], snapshots, max)
  {
    var v := c[|c| - 1];
    assert Follows(c[..|c| - 1], v, snapshots) && v.pass < |snapshots| && v.index < |snapshots[v.pass]|;
  }

  /** A finished run cannot be extended: any run at least as long is the same run. */
  lemma FinishedIsMaximal(a: seq<Visit>, b: seq<Visit>, snapshots: seq<seq<Probe>>, folder: string, sha1: Digest, max: int)
    requires IsRun(a, snapshots, folder, sha1, max) && IsRun(b, snapshots, folder, sha1, max)
    requires Finished(a, snapshots, max) && |a| <= |b|
    ensures a == b
  {
    RunsAgree(a, b, snapshots, folder, sha1, max);
    if |a| < |b| {
      RunPrefix(b, snapshots, folder, sha1, max, |a| + 1);
      var c := b[..|a| + 1];
      assert c[..|a|] == a;
      UnfinishedBeforeLast(c, snapshots, folder, sha1, max);
      assert false;
    }
  }

  /** Two finished runs over the same snapshots are equal: the loop's whole trace is determined. */
  lemma FinishedRunUnique(a: seq<Visit>, b: seq<Visit>, snapshots: seq<seq<Probe>>, folder: string, sha1: Digest, max: int)
    requires IsRun(a, snapshots, folder, sha1, max) && Finished(a, snapshots, max)
    requires IsRun(b, snapshots, folder, sha1, max) && Finished(b, snapshots, max)
    ensures a == b
  {
    if |a| <= |b| {
      FinishedIsMaximal(a, b, snapshots, folder, sha1, max);
    } else {
      FinishedIsMaximal(b, a, snapshots, folder, sha1, max);
    }
  }

  /** Processing one more thumbnail of the snapshot extends the run. */
  lemma Extend(vs: seq<Visit>, snapshots: seq<seq<Probe>>, folder: string, sha1: Digest, max: int, v: Visit)
    requires IsRun(vs, snapshots, folder, sha1, max)
    requires v.pass < |snapshots| && v.index < |snapshots[v.pass]|
    requires v.outcome == Attempt(snapshots[v.pass][v.index], folder, sha1)
    requires Follows(vs, v, snapshots) && Count(vs) < max
    ensures IsRun(vs + [v], snapshots, folder, sha1, max)
    ensures Count(vs + [v]) == Count(vs) + (if v.outcome.Persisted? then 1 else 0)
    ensures SavedPaths(vs + [v]) == SavedPaths(vs) + (if v.outcome.Persisted? then [v.outcome.path] else [])
  {
    AppendKeepsPrefixes(vs, v);
  }

  /** A pass that ran to the end of its slice leaves every pass up to it over. */
  lemma EndPass(vs: seq<Visit>, before: seq<Visit>, snapshots: seq<seq<Probe>>, pass: nat)
    requires pass < |snapshots| && Settled(before, snapshots, pass)
    requires vs == before ==> |snapshots[pass]| <= Count(vs)
    requires vs != before ==> vs != [] && vs[|vs| - 1].pass == pass && vs[|vs| - 1].index + 1 == |snapshots[pass]|
    ensures Settled(vs, snapshots, pass + 1)
  {
  }

  /**
   * One pass of the outer loop: the `for` loop over the slice
   * `thumbnails[results_start:num_thumbs]` of snapshot `pass`, where the
   * cursor `results_start`, kept by the caller, is the count reached by the
   * earlier visits. It stops at once when the count reaches `max`.
   */
  method RunPass(snapshots: seq<seq<Probe>>, pass: nat, folder: string, sha1: Digest, max: int,
                 visits0: seq<Visit>, saved0: seq<string>, resultsStart: nat)
    returns (visits: seq<Visit>, saved: seq<string>, imageCount: int, reached: bool)
    requires pass < |snapshots| && Settled(visits0, snapshots, pass)
    requires IsRun(visits0, snapshots, folder, sha1, max) && Count(visits0) < max && saved0 == SavedPaths(visits0)
    requires resultsStart == Count(visits0)
    ensures visits0 <= visits
    ensures forall k :: |visits0| <= k < |visits| ==> visits[k].pass == pass
    ensures imageCount == Count(visits) && saved == SavedPaths(visits)
    ensures IsRun(visits, snapshots, folder, sha1, max)
    ensures reached <==> imageCount >= max
    ensures reached ==> imageCount == max && visits != [] && visits[|visits| - 1].outcome.Persisted?
    ensures !reached ==> Settled(visits, snapshots, pass + 1)
  {
    var thumbnails := snapshots[pass];
    var numThumbs := |thumbnails|;
    visits, saved, imageCount := visits0, saved0, resultsStart;
    var i := resultsStart;
    while i < numThumbs
      invariant resultsStart <= i
      invariant imageCount == Count(visits) && saved == SavedPaths(visits) && imageCount < max
      invariant IsRun(visits, snapshots, folder, sha1, max) && visits0 <= visits
      invariant forall k :: |visits0| <= k < |visits| ==> visits[k].pass == pass
      invariant i == resultsStart ==> visits == visits0
      invariant i > resultsStart ==> visits != [] && visits[|visits| - 1].pass == pass && visits[|visits| - 1].index == i - 1
      decreases numThumbs - i
    {
      var o := Attempt(thumbnails[i], folder, sha1);
      var v := Visit(pass, i, o);
      Extend(visits, snapshots, folder, sha1, max, v);
      visits := visits + [v];
      if o.Persisted? {
        imageCount := imageCount + 1;
        saved := saved + [o.path];
      }
      if ReachesCheck(o) && imageCount >= max {
        return visits, saved, imageCount, true;
      }
      i := i + 1;
    }
    EndPass(visits, visits0, snapshots, pass);
    reached := false;
  }

  /**
   * `fetch_images(query, max, wd, path)` with SHA-1 given as `sha1` and the
   * browser's successive thumbnail lists given as `snapshots`: the folder
   * name, then the retrieval loop into that folder.
   */
  method FetchImages(query: string, max: int, path: string, sha1: Digest, snapshots: seq<seq<Probe>>)
    returns (imageCount: int, resultsStart: int, saved: seq<string>, visits: seq<Visit>, ended: Ending)
    ensures imageCount == Count(visits) == |saved| && saved == SavedPaths(visits)
    ensures 0 <= resultsStart <= imageCount
    ensures IsRun(visits, snapshots, FolderName(path, query), sha1, max)
    ensures ended == NotStarted <==> max <= 0
    ensures ended == NotStarted ==> visits == [] && imageCount == 0
    ensures ended == TargetReached <==> 1 <= max == imageCount
    ensures ended == TargetReached ==> visits != [] && visits[|visits| - 1].outcome.Persisted?
    ensures ended == SnapshotsExhausted ==>
              imageCount < max && resultsStart == imageCount && Settled(visits, snapshots, |snapshots|)
  {
    var folder := FolderName(path, query);
    imageCount, resultsStart, saved, visits, ended := RetrieveInto(folder, max, sha1, snapshots);
  }

  /**
   * The `while` loop of `fetch_images` (from `image_count = 0` on), saving
   * into `folder`: one pass per snapshot until the count reaches `max`. The
   * early `return` inside the pass is the `reached` flag, which ends the loop
   * before the cursor moves.
   */
  method RetrieveInto(folder: string, max: int, sha1: Digest, snapshots: seq<seq<Probe>>)
    returns (imageCount: int, resultsStart: int, saved: seq<string>, visits: seq<Visit>, ended: Ending)
    ensures imageCount == Count(visits) == |saved| && saved == SavedPaths(visits)
    ensures 0 <= resultsStart <= imageCount
    ensures IsRun(visits, snapshots, folder, sha1, max)
    ensures ended == NotStarted <==> max <= 0
    ensures ended == NotStarted ==> visits == [] && imageCount == 0
    ensures ended == TargetReached <==> 1 <= max == imageCount
    ensures ended == TargetReached ==> visits != [] && visits[|visits| - 1].outcome.Persisted?
    ensures ended == SnapshotsExhausted ==>
              imageCount < max && resultsStart == imageCount && Settled(visits, snapshots, |snapshots|)
  {
    imageCount, resultsStart, saved, visits := 0, 0, [], [];
    var pass, reached := 0, false;
    while !reached && imageCount < max && pass < |snapshots|
      invariant pass <= |snapshots|
      invariant imageCount == Count(visits) && saved == SavedPaths(visits) && 0 <= resultsStart <= imageCount
      invariant IsRun(visits, snapshots, folder, sha1, max)
      invariant reached ==> 1 <= imageCount == max && visits != [] && visits[|visits| - 1].outcome.Persisted?
      invariant !reached ==> resultsStart == imageCount && Settled(visits, snapshots, pass)
      invariant !reached && pass == 0 ==> visits == []
      invariant pass == 0 || imageCount < max || reached
      decreases |snapshots| - pass, if reached then 0 else 1
    {
      visits, saved, imageCount, reached := RunPass(snapshots, pass, folder, sha1, max, visits, saved, resultsStart);
      if !reached {
        // the `for` loop ran out of thumbnails: the cursor moves to the count
        resultsStart := imageCount;
        pass := pass + 1;
      }
    }
    ended := if reached then TargetReached else if imageCount >= max then NotStarted else SnapshotsExhausted;
  }
}
