/** Which build's byte patterns to use when the engine's own build is not supported. */
module BuildSelection {
  import opened Integers

  const FIRST_SDL_BUILD := 5943
  const LOWEST := 0
  const HIGHEST := 99999

  // ----- What the two scans find

  /** The greatest build below d, or the lowest number. */
  function Below(builds: seq<int>, d: int): int {
    if builds == [] then LOWEST
    else
      var (l, b) := (Below(builds[..|builds| - 1], d), builds[|builds| - 1]);
      if l < b && b < d then b else l
  }

  /** The least build above d, or the highest number. */
  function Above(builds: seq<int>, d: int): int {
    if builds == [] then HIGHEST
    else
      var (h, b) := (Above(builds[..|builds| - 1], d), builds[|builds| - 1]);
      if h > b && b > d then b else h
  }

  function Closest(builds: seq<int>, d: int): int {
    var (l, h) := (Below(builds, d), Above(builds, d));
    if h == l then l
    else if d >= FIRST_SDL_BUILD then h
    else if d - l < h - d then l
    else h
  }

  /** The recursion can be left: the build or the one it is replaced with is supported. */
  predicate Resolves(builds: seq<int>, d: int) {
    d in builds || Closest(builds, d) in builds
  }

  class BytePatternBank {
    /** In the order in which they are visited. */
    const supportedBuilds: seq<int>
    var currentBuild: int
    /** The build whose container is active, once one has been chosen. */
    var activeContainer: int

    constructor (builds: seq<int>, build: int)
      ensures supportedBuilds == builds && currentBuild == build && activeContainer == -1
    {
      supportedBuilds, currentBuild, activeContainer := builds, build, -1;
    }

    method IsBuildSupported(build: int) returns (supported: bool)
      ensures supported <==> build in supportedBuilds
    {
      for i := 0 to |supportedBuilds|
        invariant build !in supportedBuilds[..i]
      {
        if supportedBuilds[i] == build { return true; }
      }
      return false;
    }

    method GetClosestBuildNumberSupported() returns (c: int)
      ensures c == Closest(supportedBuilds, currentBuild)
    {
      c := 0;
      var (l, h) := (0, 99999);
      var d := currentBuild;
      for i := 0 to |supportedBuilds|
        invariant l == Below(supportedBuilds[..i], d)
      {
        var b := supportedBuilds[i];
        assert supportedBuilds[..i + 1][..i] == supportedBuilds[..i];
        if l < b && b < d {
          l := b;
        }
      }
      for i := 0 to |supportedBuilds|
        invariant h == Above(supportedBuilds[..i], d)
      {
        var b := supportedBuilds[i];
        assert supportedBuilds[..i + 1][..i] == supportedBuilds[..i];
        if h > b && b > d {
          h := b;
        }
      }
      assert supportedBuilds[..|supportedBuilds|] == supportedBuilds;
      if h == l {
        c := l;
      } else if d >= FIRST_SDL_BUILD {
        c := h;
      } else if d - l < h - d {
        c := l;
      } else if h - d < d - l {
        c := h;
      } else if d - l == h - d {
        c := h;
      }
    }

    method DecideOnBuildContainer()
      requires Resolves(supportedBuilds, currentBuild)
      modifies this
      ensures currentBuild
           == if old(currentBuild) in supportedBuilds then old(currentBuild)
              else Closest(supportedBuilds, old(currentBuild))
      ensures activeContainer == currentBuild && currentBuild in supportedBuilds
      decreases if currentBuild in supportedBuilds then 0 else 1
    {
      var needToPickClosest := false;
      var supported := IsBuildSupported(currentBuild);
      if !supported {
        needToPickClosest := true;
      }
      if !needToPickClosest {
        activeContainer := currentBuild;
      } else {
        currentBuild := GetClosestBuildNumberSupported();
        DecideOnBuildContainer();
      }
    }
  }

  // ----- The scans are a maximum and a minimum

  lemma {:induction false} BelowIsGreatest(builds: seq<int>, d: int)
    ensures Below(builds, d) == LOWEST || (Below(builds, d) in builds && LOWEST < Below(builds, d) < d)
    ensures forall b :: b in builds && b < d ==> b <= Below(builds, d) || b <= LOWEST
    ensures LOWEST <= Below(builds, d)
  {
    if builds != [] {
      BelowIsGreatest(builds[..|builds| - 1], d);
      assert builds == builds[..|builds| - 1] + [builds[|builds| - 1]];
    }
  }

  lemma {:induction false} AboveIsLeast(builds: seq<int>, d: int)
    ensures Above(builds, d) == HIGHEST || (Above(builds, d) in builds && d < Above(builds, d) < HIGHEST)
    ensures forall b :: b in builds && b > d ==> Above(builds, d) <= b || HIGHEST <= b
    ensures Above(builds, d) <= HIGHEST
  {
    if builds != [] {
      AboveIsLeast(builds[..|builds| - 1], d);
      assert builds == builds[..|builds| - 1] + [builds[|builds| - 1]];
    }
  }

  // ----- The choice

  /** Builds strictly between the two numbers the scans start from. */
  ghost predicate Plausible(builds: seq<int>) {
    forall b :: b in builds ==> 0 < b < 99999
  }

  ghost predicate HasBelow(builds: seq<int>, d: int) {
    exists b :: b in builds && b < d
  }

  ghost predicate HasAbove(builds: seq<int>, d: int) {
    exists b :: b in builds && b > d
  }

  /** What a good replacement for an unsupported build is: the next build from the first
      SDL build on, and before that the nearest one, of two equally near ones the higher. */
  ghost predicate BestReplacement(builds: seq<int>, d: int, c: int) {
    && c in builds
    && if d >= 5943 then c > d && forall b :: b in builds && b > d ==> c <= b
       else forall b :: b in builds ==>
              Distance(c, d) < Distance(b, d) || (Distance(c, d) == Distance(b, d) && b <= c)
  }

  /** A replacement that is supported is the best one; one that is not is a number the scans
      start from. */
  lemma ClosestIsBest(builds: seq<int>, d: int)
    requires Plausible(builds) && d !in builds
    ensures BestReplacement(builds, d, Closest(builds, d)) <==> Resolves(builds, d)
    ensures !Resolves(builds, d) ==> Closest(builds, d) == if d >= 5943 then 99999 else 0
  {
    BelowIsGreatest(builds, d);
    AboveIsLeast(builds, d);
  }

  /** When the replacement is supported: from the first SDL build on, when there is a build
      above; before it, when there is one below, or the next one above is not more than
      twice as high. */
  lemma ResolvesExactlyWhen(builds: seq<int>, d: int)
    requires Plausible(builds) && d !in builds
    ensures Resolves(builds, d)
       <==> if d >= 5943 then HasAbove(builds, d)
            else HasBelow(builds, d) || (HasAbove(builds, d) && Above(builds, d) <= 2 * d)
  {
    BelowIsGreatest(builds, d);
    AboveIsLeast(builds, d);
  }

  // ----- The recursion

  /** The current build after n rounds of the recursion. */
  function After(builds: seq<int>, d: int, n: nat): int {
    if n == 0 then d
    else
      var c := After(builds, d, n - 1);
      if c in builds then c else Closest(builds, c)
  }

  lemma NumbersOfTheScansStay(builds: seq<int>)
    ensures LOWEST !in builds ==> Closest(builds, LOWEST) == LOWEST
    ensures HIGHEST !in builds ==> Closest(builds, HIGHEST) == HIGHEST
  {
    BelowIsGreatest(builds, LOWEST);
    AboveIsLeast(builds, LOWEST);
    BelowIsGreatest(builds, HIGHEST);
    AboveIsLeast(builds, HIGHEST);
  }

  lemma {:induction false} AfterOneRound(builds: seq<int>, d: int, n: nat)
    requires n > 0
    ensures After(builds, d, n) == After(builds, d, 1)
  {
    NumbersOfTheScansStay(builds);
    BelowIsGreatest(builds, d);
    AboveIsLeast(builds, d);
    if n > 1 { AfterOneRound(builds, d, n - 1); }
  }

  /** The recursion reaches a supported build, in any number of rounds, exactly if the
      build or its replacement is supported: one round decides. */
  lemma RecursionEndsExactlyWhen(builds: seq<int>, d: int)
    ensures (exists n: nat :: After(builds, d, n) in builds) <==> Resolves(builds, d)
  {
    assert After(builds, d, 0) == d;
    forall n: nat | n > 0
      ensures After(builds, d, n) == After(builds, d, 1)
    {
      AfterOneRound(builds, d, n);
    }
    assert After(builds, d, 1) == if d in builds then d else Closest(builds, d);
  }

  // ----- The builds that are supported

  const SUPPORTED: seq<int> := [3266, 4554, 8684]

  /** With these builds, selection ends for the builds from 1633 to 8684 and no others. */
  lemma SupportedRange(d: int)
    ensures Resolves(SUPPORTED, d) <==> 1633 <= d <= 8684
  {
    if d !in SUPPORTED {
      ResolvesExactlyWhen(SUPPORTED, d);
      AboveIsLeast(SUPPORTED, d);
      assert 3266 in SUPPORTED && 4554 in SUPPORTED && 8684 in SUPPORTED;
    }
  }
}
