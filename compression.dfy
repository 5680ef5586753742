/**
 The decisions of `compression` in main.go: validating the request and naming the
 output (a function), resolving a free output path by probing suffixed names (a
 method with a loop), and building the converter's argument list (a function).
 The filesystem is abstracted as the finite set `existing` of paths that `fileExists`
 reports as present, and `os.Getwd` as the parameter `cwd`.
 */
module Compress {
  import opened GoLib

  /** The error values `compression` returns before it spawns anything. */
  datatype Error =
    | EmptyInput                    // main.go:110
    | UnsupportedFormat(ext: string) // main.go:116 and main.go:131, carrying the lower-cased extension
    | InvalidFilename               // main.go:124

  /** The five arguments of `compression`. */
  datatype Request = Request(inputDir: string, inputFilename: string, outdir: string, outFilename: string, quality: int)

  /** What validation leaves for the collision loop: the directory, the output name, its stem and extension. */
  datatype Plan = Plan(outdir: string, outFilename: string, stem: string, ext: string)

  /** Validation either rejects the request, panics in the slice of main.go:127, or yields a plan. */
  datatype Checked = Rejected(err: Error) | Panic | Ready(plan: Plan)

  /** The whole call: an error, a runtime panic, or the argument list the converter is run with. */
  datatype Outcome = Failed(err: Error) | Panicked | Run(argv: seq<string>)

  /** The extension whitelist, applied to lower-cased extensions. */
  predicate IsImageExt(e: string)
  {
    e == ".png" || e == ".jpg" || e == ".jpeg"
  }

  /**
   The whitelist ignores case: a lower-cased extension is whitelisted exactly when the
   extension itself folds to `.png`, `.jpg` or `.jpeg`.
   */
  lemma CaseInsensitiveGate(e: string)
    ensures IsImageExt(ToLower(e)) <==> FoldEq(e, ".png") || FoldEq(e, ".jpg") || FoldEq(e, ".jpeg")
  {
    ToLowerFoldEq(e, ".png");
    ToLowerFoldEq(e, ".jpg");
    ToLowerFoldEq(e, ".jpeg");
  }

  /** `fileExists`: any `os.Stat` failure counts as absent, so presence is membership. */
  predicate FileExists(existing: set<string>, path: string)
  {
    path in existing
  }

  /** The directory the output goes to: an empty one is replaced by the working directory. */
  function OutDir(req: Request, cwd: string): string
  {
    if req.outdir == "" then cwd else req.outdir
  }

  /** The output name: an empty one is replaced by the input name. */
  function OutName(req: Request): string
  {
    if req.outFilename == "" then req.inputFilename else req.outFilename
  }

  /**
   Lines 104-132 of `compression`, in their order, once the output directory and
   output name have been defaulted (lines 105-107 and 119-121). The stem is sliced
   from the OUTPUT name at the last-dot position of the INPUT name, minus one; a
   slice bound outside `0 .. len(outFilename)` is a Go runtime panic.
   */
  function Validate(req: Request, cwd: string): Checked
  {
    Decide(req.inputFilename, OutName(req), OutDir(req, cwd))
  }

  /** The checks of lines 109-132 on the input name and the defaulted output name and directory. */
  function Decide(inputFilename: string, outName: string, outdir: string): Checked
  {
    if inputFilename == "" then
      Rejected(EmptyInput)
    else
      var inExt := ToLower(Ext(inputFilename));
      if !IsImageExt(inExt) then
        Rejected(UnsupportedFormat(inExt))
      else
        var index := LastIndex(inputFilename, '.');
        if index < 0 then
          Rejected(InvalidFilename)
        else if index - 1 < 0 || index - 1 > |outName| then
          Panic
        else
          var stem := outName[..index - 1];
          var ext := ToLower(Ext(outName));
          if !IsImageExt(ext) then
            Rejected(UnsupportedFormat(ext))
          else
            Ready(Plan(outdir, outName, stem, ext))
  }

  /** The empty input name is rejected, and it is the only request rejected with `EmptyInput`. */
  lemma EmptyInputRejected(req: Request, cwd: string)
    ensures Validate(req, cwd) == Rejected(EmptyInput) <==> req.inputFilename == ""
  {
    var s := req.inputFilename;
    var r := Validate(req, cwd);
    assert s != "" && !IsImageExt(ToLower(Ext(s))) ==> r == Rejected(UnsupportedFormat(ToLower(Ext(s))));
    assert s != "" && IsImageExt(ToLower(Ext(s))) ==> r != Rejected(EmptyInput);
  }

  /** The empty output directory is replaced by the working directory before anything else. */
  lemma EmptyOutDirIsWorkingDir(req: Request, cwd: string, other: string)
    requires req.outdir == "" && cwd != ""
    ensures Validate(req, cwd) == Validate(req.(outdir := cwd), other)
  {
    var req' := req.(outdir := cwd);
    assert OutDir(req, cwd) == OutDir(req', other) == cwd;
    assert OutName(req) == OutName(req');
    assert Validate(req', other) == Decide(req.inputFilename, OutName(req), cwd);
  }

  /**
   The input gate: a non-empty input name gets past the input check exactly when its
   lower-cased extension is whitelisted; otherwise the result is the unsupported-format
   error naming that extension.
   */
  lemma InputFormatGate(req: Request, cwd: string)
    requires req.inputFilename != ""
    ensures !IsImageExt(ToLower(Ext(req.inputFilename))) <==>
            Validate(req, cwd) == Rejected(UnsupportedFormat(ToLower(Ext(req.inputFilename))))
  {
    if IsImageExt(ToLower(Ext(req.inputFilename))) {
      ExtStartsAtLastDot(req.inputFilename);
    }
  }

  /**
   Past the input gate and the slice, the request is ready exactly when the output
   name's own lower-cased extension is whitelisted; otherwise it fails with the
   unsupported-format error naming that extension.
   */
  lemma OutputCheckedAfterInput(req: Request, cwd: string)
    requires req.inputFilename != "" && IsImageExt(ToLower(Ext(req.inputFilename)))
    ensures Validate(req, cwd) != Panic ==>
            (Validate(req, cwd).Ready? <==> IsImageExt(ToLower(Ext(OutName(req)))))
    ensures Validate(req, cwd) != Panic && !IsImageExt(ToLower(Ext(OutName(req)))) ==>
            Validate(req, cwd) == Rejected(UnsupportedFormat(ToLower(Ext(OutName(req)))))
  {
    ExtStartsAtLastDot(req.inputFilename);
  }

  /** The "no dot" error of main.go:123-125 is unreachable: a whitelisted extension implies a dot. */
  lemma InvalidFilenameUnreachable(req: Request, cwd: string)
    ensures Validate(req, cwd) != Rejected(InvalidFilename)
  {
    var s := req.inputFilename;
    if s != "" && IsImageExt(ToLower(Ext(s))) {
      ExtStartsAtLastDot(s);
      assert LastIndex(s, '.') >= 0;
    }
  }

  /**
   The slice panics exactly when the input passed its gate and the input's last dot,
   minus one, is not a position in the output name: a dot at position 0 (".png"),
   or an output name too short.
   */
  lemma PanicCondition(req: Request, cwd: string)
    ensures Validate(req, cwd) == Panic <==>
            req.inputFilename != "" && IsImageExt(ToLower(Ext(req.inputFilename))) &&
            (LastIndex(req.inputFilename, '.') == 0 || LastIndex(req.inputFilename, '.') - 1 > |OutName(req)|)
  {
    if req.inputFilename != "" && IsImageExt(ToLower(Ext(req.inputFilename))) {
      ExtStartsAtLastDot(req.inputFilename);
    }
  }

  /**
   What a plan holds: the defaulted directory and name, a whitelisted lower-cased
   output extension, and the stem `outFilename[:index-1]` for the input's last dot
   `index`, which sits where the input's extension begins.
   */
  lemma ReadyPlan(req: Request, cwd: string)
    requires Validate(req, cwd).Ready?
    ensures var p := Validate(req, cwd).plan;
            && req.inputFilename != ""
            && IsImageExt(ToLower(Ext(req.inputFilename)))
            && p.outdir == OutDir(req, cwd)
            && p.outFilename == OutName(req)
            && IsImageExt(p.ext) && p.ext == ToLower(Ext(p.outFilename))
            && |p.stem| == |req.inputFilename| - |Ext(req.inputFilename)| - 1
            && p.stem == p.outFilename[..|p.stem|]
  {
    var s, out, dir := req.inputFilename, OutName(req), OutDir(req, cwd);
    var r := Decide(s, out, dir);
    assert r.Ready?;
    assert s != "" && IsImageExt(ToLower(Ext(s)));
    ExtStartsAtLastDot(s);
    var index := LastIndex(s, '.');
    assert index == |s| - |Ext(s)|;
    assert 1 <= index <= |out| + 1;
    OutputGate(s, out, dir);
  }

  /**
   With the default output name the output check repeats the input check, so a
   request that passes the input gate is ready unless its only dot is its first byte.
   */
  lemma DefaultOutputNamePanics(req: Request, cwd: string)
    requires req.inputFilename != "" && IsImageExt(ToLower(Ext(req.inputFilename)))
    requires req.outFilename == ""
    ensures Validate(req, cwd) == Panic <==> |Ext(req.inputFilename)| == |req.inputFilename|
    ensures Validate(req, cwd).Panic? || Validate(req, cwd).Ready?
  {
    ExtStartsAtLastDot(req.inputFilename);
    assert OutName(req) == req.inputFilename;
  }

  /**
   With the default output name, the stem is the input name without its extension
   and without the byte before it.
   */
  lemma DefaultOutputNameStem(req: Request, cwd: string)
    requires Validate(req, cwd).Ready? && req.outFilename == ""
    ensures var s := req.inputFilename;
            Validate(req, cwd).plan.stem + [s[|s| - |Ext(s)| - 1]] + Ext(s) == s
  {
    var s := req.inputFilename;
    ReadyPlan(req, cwd);
    var n := |s| - |Ext(s)|;
    assert Validate(req, cwd).plan.stem == s[..n - 1];
    assert s == s[..n - 1] + [s[n - 1]] + s[n..];
  }

  /** The suffixed name tried on probe `i` of the collision loop (main.go:142). */
  function Candidate(outdir: string, stem: string, ext: string, i: int): string
  {
    Join(outdir, stem + "_out_" + Dec(i) + ext)
  }

  /** Different suffix numbers give different candidates. */
  lemma CandidateInjective(outdir: string, stem: string, ext: string, i: int, j: int)
    requires Candidate(outdir, stem, ext, i) == Candidate(outdir, stem, ext, j)
    ensures i == j
  {
    var a := stem + "_out_" + Dec(i) + ext;
    var b := stem + "_out_" + Dec(j) + ext;
    JoinInjective(outdir, a, b);
    var lo := |stem| + 5;
    assert Dec(i) == a[lo..|a| - |ext|];
    assert Dec(j) == b[lo..|b| - |ext|];
    DecInjective(i, j);
  }

  /**
   `path` is what the collision loop lands on, after `i` increments: the first probe,
   `Join(outdir, outFilename)`, if it is free; otherwise the candidate with the least
   positive suffix number that is free.
   */
  ghost predicate IsResolution(existing: set<string>, outdir: string, outFilename: string,
                               stem: string, ext: string, path: string, i: nat)
  {
    && path !in existing
    && (i == 0 <==> Join(outdir, outFilename) !in existing)
    && (i == 0 ==> path == Join(outdir, outFilename))
    && (i > 0 ==> path == Candidate(outdir, stem, ext, i))
    && (forall j :: 1 <= j < i ==> Candidate(outdir, stem, ext, j) in existing)
  }

  /** The resolution is determined by the existing paths: the loop has exactly one possible outcome. */
  lemma ResolutionUnique(existing: set<string>, outdir: string, outFilename: string, stem: string, ext: string,
                         p1: string, i1: nat, p2: string, i2: nat)
    requires IsResolution(existing, outdir, outFilename, stem, ext, p1, i1)
    requires IsResolution(existing, outdir, outFilename, stem, ext, p2, i2)
    ensures p1 == p2 && i1 == i2
  {
    assert 1 <= i1 < i2 ==> Candidate(outdir, stem, ext, i1) in existing;
    assert 1 <= i2 < i1 ==> Candidate(outdir, stem, ext, i2) in existing;
  }

  /**
   The collision loop of main.go:134-144. It probes `Join(outdir, outFilename)` and
   then the candidates numbered 1, 2, ...; it makes `i + 1` probes. Since the
   candidates are pairwise distinct and all probed-and-taken ones lie in the finite
   `existing`, it stops after at most |existing| + 2 probes, and after at most
   |existing| + 1 when the first probe is not itself one of the candidates.
   */
  method ResolveOutputPath(existing: set<string>, outdir: string, outFilename: string, stem: string, ext: string)
    returns (filename: string, i: nat)
    ensures IsResolution(existing, outdir, outFilename, stem, ext, filename, i)
    ensures filename !in existing
    ensures Join(outdir, outFilename) !in existing ==> filename == Join(outdir, outFilename)
    ensures i <= |existing| + 1
    ensures (forall j :: 1 <= j < i ==> Candidate(outdir, stem, ext, j) != Join(outdir, outFilename)) ==> i <= |existing|
  {
    var first := Join(outdir, outFilename);
    filename := first;
    i := 0;
    while FileExists(existing, filename)
      invariant i == 0 ==> filename == first
      invariant i > 0 ==> filename == Candidate(outdir, stem, ext, i) && first in existing
      invariant forall j :: 1 <= j < i ==> Candidate(outdir, stem, ext, j) in existing
      invariant Taken(outdir, stem, ext, i) <= existing
      invariant i <= |existing| + 1
      decreases |existing| + 1 - i
    {
      ProbeStep(existing, outdir, stem, ext, i);
      i := i + 1;
      filename := Candidate(outdir, stem, ext, i);
    }
    if i > 0 && forall j :: 1 <= j < i ==> Candidate(outdir, stem, ext, j) != first {
      FirstProbeBound(existing, outdir, stem, ext, first, i);
    }
  }

  /**
   One more taken probe: if probe `i` (a candidate when `i > 0`) is taken, the `i`
   candidates probed so far are all in `existing`, so there are at least `i` paths.
   */
  lemma ProbeStep(existing: set<string>, outdir: string, stem: string, ext: string, i: nat)
    requires Taken(outdir, stem, ext, i) <= existing
    requires i > 0 ==> Candidate(outdir, stem, ext, i) in existing
    ensures Taken(outdir, stem, ext, i + 1) <= existing
    ensures i <= |existing|
  {
    TakenStep(outdir, stem, ext, i);
    TakenSize(outdir, stem, ext, i + 1);
    SubsetSize(Taken(outdir, stem, ext, i + 1), existing);
  }

  /**
   When the first probe is taken and is none of the `i - 1` taken candidates, `existing`
   holds `i` distinct paths.
   */
  lemma FirstProbeBound(existing: set<string>, outdir: string, stem: string, ext: string, first: string, i: nat)
    requires i > 0 && first in existing && Taken(outdir, stem, ext, i) <= existing
    requires forall j :: 1 <= j < i ==> Candidate(outdir, stem, ext, j) != first
    ensures i <= |existing|
  {
    TakenSize(outdir, stem, ext, i);
    SubsetSize(Taken(outdir, stem, ext, i) + {first}, existing);
  }

  /** The candidates numbered 1 to `i - 1`: those probed and found taken before probe `i`. */
  ghost function Taken(outdir: string, stem: string, ext: string, i: nat): set<string>
  {
    set j | 1 <= j < i :: Candidate(outdir, stem, ext, j)
  }

  /** Probe `i` adds a path not probed before. */
  lemma TakenStep(outdir: string, stem: string, ext: string, i: nat)
    ensures i >= 1 ==> Candidate(outdir, stem, ext, i) !in Taken(outdir, stem, ext, i)
    ensures Taken(outdir, stem, ext, i + 1) ==
            if i == 0 then {} else Taken(outdir, stem, ext, i) + {Candidate(outdir, stem, ext, i)}
  {
    forall j | 1 <= j < i
      ensures Candidate(outdir, stem, ext, j) != Candidate(outdir, stem, ext, i)
    {
      if Candidate(outdir, stem, ext, j) == Candidate(outdir, stem, ext, i) {
        CandidateInjective(outdir, stem, ext, i, j);
      }
    }
  }

  /** Pairwise distinct candidates: `i - 1` of them are taken before probe `i`. */
  lemma {:induction false} TakenSize(outdir: string, stem: string, ext: string, i: nat)
    ensures |Taken(outdir, stem, ext, i)| == if i == 0 then 0 else i - 1
  {
    if i > 1 {
      TakenSize(outdir, stem, ext, i - 1);
      TakenStep(outdir, stem, ext, i - 1);
    } else {
      assert Taken(outdir, stem, ext, i) == {};
    }
  }

  lemma SubsetSize(a: set<string>, b: set<string>)
    requires a <= b
    ensures |a| <= |b|
  {
    assert b == a + (b - a);
  }

  /** The argument list handed to the converter (main.go:146-148). */
  function Command(inputDir: string, inputFilename: string, quality: int, output: string): seq<string>
  {
    ["./magick.exe", "convert", Join(inputDir, inputFilename), "-quality", Dec(quality), output]
  }

  /**
   The converter gets the joined input path, the quality exactly as given (no clamping:
   reading the argument back yields `quality`, negative or above 100 included), and the
   resolved output path as its last argument.
   */
  lemma CommandPassesThrough(inputDir: string, inputFilename: string, quality: int, output: string)
    ensures var argv := Command(inputDir, inputFilename, quality, output);
            && |argv| == 6
            && argv[0] == "./magick.exe" && argv[1] == "convert" && argv[3] == "-quality"
            && argv[2] == Join(inputDir, inputFilename)
            && ParseInt(argv[4]) == Some(quality)
            && argv[5] == output
  {
    DecRoundTrip(quality);
  }

  /**
   `compression` up to `cmd.Run()`: an error or a panic means no path is resolved and
   no command is built; otherwise the command's last argument is the resolution of
   the plan against `existing`.
   */
  method Compression(req: Request, cwd: string, existing: set<string>) returns (o: Outcome)
    ensures Validate(req, cwd).Rejected? ==> o == Failed(Validate(req, cwd).err)
    ensures Validate(req, cwd) == Panic ==> o == Panicked
    ensures Validate(req, cwd).Ready? ==>
              var p := Validate(req, cwd).plan;
              && o.Run? && |o.argv| == 6
              && o.argv == Command(req.inputDir, req.inputFilename, req.quality, o.argv[5])
              && exists i :: IsResolution(existing, p.outdir, p.outFilename, p.stem, p.ext, o.argv[5], i)
  {
    match Validate(req, cwd)
    case Rejected(e) =>
      o := Failed(e);
    case Panic =>
      o := Panicked;
    case Ready(p) =>
      var filename, i := ResolveOutputPath(existing, p.outdir, p.outFilename, p.stem, p.ext);
      o := Run(Command(req.inputDir, req.inputFilename, req.quality, filename));
  }

  /** `A.JPG` passes the case-insensitive input gate. */
  lemma UpperCaseAccepted(cwd: string)
    ensures Validate(Request("in", "A.JPG", "out", "", 80), cwd) == Ready(Plan("out", "A.JPG", "", ".jpg"))
  {
    ExtAt("A.JPG", 1);
    assert ToLower(".JPG") == ".jpg";
  }

  /** `a.gif` is rejected with the unsupported-format error naming `.gif`. */
  lemma GifRejected(cwd: string)
    ensures Validate(Request("in", "a.gif", "out", "", 80), cwd) == Rejected(UnsupportedFormat(".gif"))
  {
    ExtAt("a.gif", 1);
    assert "a.gif"[1..] == ".gif";
    assert ToLower(".gif") == ".gif";
    assert !IsImageExt(".gif");
  }

  /** `README` has no extension, so it fails the whitelist with an empty extension. */
  lemma NoExtensionRejected(cwd: string)
    ensures Validate(Request("in", "README", "out", "", 80), cwd) == Rejected(UnsupportedFormat(""))
  {
    ExtNone("README");
  }

  /**
   Past the input gate and the slice, the output gate alone decides: a ready plan with
   the sliced stem, or the unsupported-format error naming the output's extension.
   */
  lemma OutputGate(inputFilename: string, outName: string, outdir: string)
    requires inputFilename != "" && IsImageExt(ToLower(Ext(inputFilename)))
    requires 1 <= LastIndex(inputFilename, '.') <= |outName| + 1
    ensures var ext := ToLower(Ext(outName));
            Decide(inputFilename, outName, outdir) ==
            if IsImageExt(ext) then Ready(Plan(outdir, outName, outName[..LastIndex(inputFilename, '.') - 1], ext))
            else Rejected(UnsupportedFormat(ext))
  {
  }

  /** A valid input with the output name `b.gif` fails the independent output check. */
  lemma GifOutputRejected(cwd: string)
    ensures Validate(Request("in", "a.png", "out", "b.gif", 80), cwd) == Rejected(UnsupportedFormat(".gif"))
  {
    GifOutputNames();
    OutputGate("a.png", "b.gif", "out");
  }

  /** The extensions and the last dot of the two names in `GifOutputRejected`. */
  lemma GifOutputNames()
    ensures ToLower(Ext("a.png")) == ".png" && LastIndex("a.png", '.') == 1
    ensures ToLower(Ext("b.gif")) == ".gif"
  {
    ExtAt("a.png", 1);
    assert "a.png"[1..] == ".png";
    ToLowerFoldEq(".png", ".png");
    ExtAt("b.gif", 1);
    assert "b.gif"[1..] == ".gif";
    ToLowerFoldEq(".gif", ".gif");
  }

  /** `.png` passes the gate, but its dot at position 0 makes the slice bound negative. */
  lemma LeadingDotPanics(cwd: string)
    ensures Validate(Request("in", ".png", "out", "", 80), cwd) == Panic
  {
    ExtAt(".png", 0);
    assert ToLower(".png") == ".png";
  }

  /** `photo.jpg` gets the stem `phot`: the slice drops the byte before the dot. */
  lemma PhotoStem(cwd: string)
    ensures Validate(Request("in", "photo.jpg", "out", "", 80), cwd) == Ready(Plan("out", "photo.jpg", "phot", ".jpg"))
  {
    ExtAt("photo.jpg", 5);
    assert ToLower(".jpg") == ".jpg";
  }

  /** With `out/photo.jpg` taken the output goes to `out/phot_out_1.jpg`; with that taken too, to `_out_2`. */
  lemma PhotoCollisions()
    ensures IsResolution({"out/photo.jpg"}, "out", "photo.jpg", "phot", ".jpg", "out/phot_out_1.jpg", 1)
    ensures IsResolution({"out/photo.jpg", "out/phot_out_1.jpg"}, "out", "photo.jpg", "phot", ".jpg",
                         "out/phot_out_2.jpg", 2)
  {
    assert Dec(1) == "1";
    assert Dec(2) == "2";
    assert "out" + "/" + "photo.jpg" == "out/photo.jpg";
    assert Join("out", "photo.jpg") == "out/photo.jpg";
    assert "out" + "/" + ("phot" + "_out_" + "1" + ".jpg") == "out/phot_out_1.jpg";
    assert Candidate("out", "phot", ".jpg", 1) == "out/phot_out_1.jpg";
    assert "out" + "/" + ("phot" + "_out_" + "2" + ".jpg") == "out/phot_out_2.jpg";
    assert Candidate("out", "phot", ".jpg", 2) == "out/phot_out_2.jpg";
  }

  /**
   One more probe than |existing| + 1 is possible when the output name is itself the
   first candidate: with only `d/a_out_1.png` taken, the loop probes it twice.
   */
  lemma RepeatedProbeExample()
    ensures IsResolution({"d/a_out_1.png"}, "d", "a_out_1.png", "a", ".png", "d/a_out_2.png", 2)
  {
    assert Dec(1) == "1" && Dec(2) == "2";
    assert "a" + "_out_" + "1" + ".png" == "a_out_1.png";
    assert "a" + "_out_" + "2" + ".png" == "a_out_2.png";
    assert Join("d", "a_out_1.png") == "d/a_out_1.png";
    assert Join("d", "a_out_2.png") == "d/a_out_2.png";
    assert "d/a_out_2.png"[8] != "d/a_out_1.png"[8];
    assert forall j :: 1 <= j < 2 ==> Candidate("d", "a", ".png", j) == Candidate("d", "a", ".png", 1);
  }
}
