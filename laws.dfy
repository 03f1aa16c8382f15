/** What one run of a freshly constructed `LatexConverter` (empty trace
    before it) promises its window, and the laws of the cleanup. */
module ConverterLaws {
  import opened Paths
  import opened Events
  import opened Converter

  /** The .tex path exists (as a file or any other entry). */
  predicate TexPresent(texName: string, files: set<string>, subdirs: set<string>)
  {
    texName in files || texName in subdirs
  }

  /** After pdflatex and the cleanup, `{stem}.pdf` exists. */
  predicate PdfProduced(texName: string, files: set<string>, subdirs: set<string>, env: Env)
  {
    var stem := Stem(texName);
    && Compiles(texName, files, subdirs, env)
    && (PdfName(stem) in Cleaned(files + {BatName} + (env.produced - subdirs), stem, env.locked)
        || PdfName(stem) in subdirs)
  }

  /** The emission rules, for every trace and event at once. */
  lemma EmitAll()
    ensures forall t: seq<Event>, e: Event ::
      ProgressValues(t + [e]) == ProgressValues(t) + (if e.Progress? then [e.percent] else [])
    ensures forall t: seq<Event>, e: Event ::
      ErrorCount(t + [e]) == ErrorCount(t) + (if e.Error? then 1 else 0)
    ensures forall t: seq<Event>, e: Event ::
      FinishedCount(t + [e]) == FinishedCount(t) + (if e.Finished? then 1 else 0)
  {
    forall t: seq<Event>, e: Event
      ensures ProgressValues(t + [e]) == ProgressValues(t) + (if e.Progress? then [e.percent] else [])
      ensures ErrorCount(t + [e]) == ErrorCount(t) + (if e.Error? then 1 else 0)
      ensures FinishedCount(t + [e]) == FinishedCount(t) + (if e.Finished? then 1 else 0)
    {
      EmitOne(t, e);
    }
  }

  /** `convert_to_pdf` reports success exactly when the PDF exists after the
      compile and the cleanup. */
  lemma ConvertOkIff(dirPath: string, texName: string, files: set<string>, subdirs: set<string>,
                     env: Env, before: seq<Event>)
    ensures Convert(dirPath, texName, files, subdirs, env, before).ok <==>
            PdfProduced(texName, files, subdirs, env)
  {
  }

  /** What the check and install stage adds to a trace: 10, then 20 and 50
      when installing (only 20 when the installer fails), no error and no
      completion. */
  lemma PreludeAdds(env: Env, before: seq<Event>)
    ensures ProgressValues(Prelude(env, before)) ==
            ProgressValues(before) + [10] +
            (if env.compilerPresent then [] else [20] + if InstallMiktex(env).Installed? then [50] else [])
    ensures ErrorCount(Prelude(env, before)) == ErrorCount(before)
    ensures FinishedCount(Prelude(env, before)) == FinishedCount(before)
  {
    EmitAll();
    var checked := before + [Message(CheckingText)] + [Progress(10)];
    assert ProgressValues(checked) == ProgressValues(before) + [10];
    if !env.compilerPresent {
      var installing := checked + [Message(InstallingText)] + [Progress(20)];
      assert ProgressValues(installing) == ProgressValues(before) + [10] + [20];
    }
  }

  /** What `convert_to_pdf` adds to a trace: 70 once the .tex is found, 100
      when the PDF exists, exactly one error otherwise, no completion. */
  lemma ConvertAdds(dirPath: string, texName: string, files: set<string>, subdirs: set<string>,
                    env: Env, before: seq<Event>)
    ensures var c := Convert(dirPath, texName, files, subdirs, env, before);
            && ProgressValues(c.events) ==
               ProgressValues(before)
               + (if TexPresent(texName, files, subdirs) then [70] else [])
               + (if PdfProduced(texName, files, subdirs, env) then [100] else [])
            && ErrorCount(c.events) == ErrorCount(before) + (if c.ok then 0 else 1)
            && FinishedCount(c.events) == FinishedCount(before)
  {
    EmitAll();
    ConvertOkIff(dirPath, texName, files, subdirs, env, before);
    if TexPresent(texName, files, subdirs) {
      var started := before + [Message(RunningText(texName))] + [Progress(70)];
      assert ProgressValues(started) == ProgressValues(before) + [70];
    }
  }

  /** The progress values of a run: 10; 20 and 50 only when installing (an
      installer failure stops after 20); then 60; 70 once the .tex is found;
      100 when the PDF exists; and the closing 100. */
  lemma RunProgress(dirPath: string, texName: string, files: set<string>, subdirs: set<string>, env: Env)
    ensures var pv := ProgressValues(RunOnce(dirPath, texName, files, subdirs, env, []).events);
            && (!ReachesConversion(env) ==> pv == [10, 20])
            && (ReachesConversion(env) ==>
                  pv == [10] + (if env.compilerPresent then [] else [20, 50]) + [60]
                        + (if TexPresent(texName, files, subdirs) then [70] else [])
                        + (if PdfProduced(texName, files, subdirs, env) then [100] else [])
                        + [100])
  {
    var prelude := Prelude(env, []);
    PreludeAdds(env, []);
    assert ProgressValues([]) == [];
    if !ReachesConversion(env) {
      var failed := prelude + [Error(RunFailureText(InstallMiktex(env).message))];
      EmitOne(prelude, Error(RunFailureText(InstallMiktex(env).message)));
      EmitOne(failed, Finished);
    } else {
      var pre := [10] + (if env.compilerPresent then [] else [20, 50]);
      assert ProgressValues(prelude) == pre;
      var converting := prelude + [Message(ConvertingText(texName))];
      EmitOne(prelude, Message(ConvertingText(texName)));
      EmitOne(converting, Progress(60));
      ConvertAdds(dirPath, texName, files, subdirs, env, converting + [Progress(60)]);
      var c := Convert(dirPath, texName, files, subdirs, env, converting + [Progress(60)]);
      var found := if TexPresent(texName, files, subdirs) then [70] else [];
      var written := if PdfProduced(texName, files, subdirs, env) then [100] else [];
      assert ProgressValues(c.events) == pre + [60] + found + written;
      EmitOne(c.events, Progress(100));
      EmitOne(c.events + [Progress(100)], Message(DoneText));
      EmitOne(c.events + [Progress(100)] + [Message(DoneText)], Finished);
    }
  }

  /** Errors and completions of a run: `Finished` once and last; one error
      when the installer fails or `convert_to_pdf` reports a failure, none
      when the PDF exists. */
  lemma RunCounts(dirPath: string, texName: string, files: set<string>, subdirs: set<string>, env: Env)
    ensures var t := RunOnce(dirPath, texName, files, subdirs, env, []).events;
            && FinishedOnceAtEnd(t)
            && ErrorCount(t) == (if ReachesConversion(env) && PdfProduced(texName, files, subdirs, env) then 0 else 1)
  {
    var prelude := Prelude(env, []);
    PreludeAdds(env, []);
    assert ErrorCount([]) == 0 && FinishedCount([]) == 0;
    if !ReachesConversion(env) {
      var failed := prelude + [Error(RunFailureText(InstallMiktex(env).message))];
      EmitOne(prelude, Error(RunFailureText(InstallMiktex(env).message)));
      EmitOne(failed, Finished);
    } else {
      var converting := prelude + [Message(ConvertingText(texName))];
      EmitOne(prelude, Message(ConvertingText(texName)));
      EmitOne(converting, Progress(60));
      ConvertAdds(dirPath, texName, files, subdirs, env, converting + [Progress(60)]);
      ConvertOkIff(dirPath, texName, files, subdirs, env, converting + [Progress(60)]);
      var c := Convert(dirPath, texName, files, subdirs, env, converting + [Progress(60)]);
      EmitOne(c.events, Progress(100));
      EmitOne(c.events + [Progress(100)], Message(DoneText));
      EmitOne(c.events + [Progress(100)] + [Message(DoneText)], Finished);
    }
  }

  /** Every progress sequence a run can produce is a non-decreasing sequence
      of percentages. */
  lemma ProgressShapeOrdered(installed: bool, found: bool, written: bool)
    ensures var s := [10] + (if installed then [] else [20, 50]) + [60]
                     + (if found then [70] else []) + (if written then [100] else []) + [100];
            Percentages(s) && NonDecreasing(s)
  {
  }

  /** One run of a fresh converter is well formed: `Finished` exactly once
      and last, progress within 0..100 and never decreasing, at most one
      error. */
  lemma RunWellFormed(dirPath: string, texName: string, files: set<string>, subdirs: set<string>, env: Env)
    ensures WellFormedRun(RunOnce(dirPath, texName, files, subdirs, env, []).events)
  {
    RunProgress(dirPath, texName, files, subdirs, env);
    RunCounts(dirPath, texName, files, subdirs, env);
    ProgressShapeOrdered(env.compilerPresent, TexPresent(texName, files, subdirs),
                         PdfProduced(texName, files, subdirs, env));
    var pv := ProgressValues(RunOnce(dirPath, texName, files, subdirs, env, []).events);
    if !ReachesConversion(env) {
      assert pv == [10, 20];
    }
  }

  /** The install branch (20, the installer, 50) runs exactly when pdflatex
      is missing, and 50 is reached exactly when the installer succeeds. */
  lemma InstallBranchIff(dirPath: string, texName: string, files: set<string>, subdirs: set<string>, env: Env)
    ensures var t := RunOnce(dirPath, texName, files, subdirs, env, []).events;
            && (Progress(20) in t <==> !env.compilerPresent)
            && (Progress(50) in t <==> !env.compilerPresent && InstallMiktex(env).Installed?)
  {
    var t := RunOnce(dirPath, texName, files, subdirs, env, []).events;
    RunProgress(dirPath, texName, files, subdirs, env);
    ProgressOccurs(t, 20);
    ProgressOccurs(t, 50);
  }

  /** A failing installer (missing, failing to start, or returning a
      non-zero code) yields one error carrying its message and then
      `Finished`: progress stops at 20, `convert_to_pdf` is never entered
      and the directory is untouched. */
  lemma InstallFailureRun(dirPath: string, texName: string, files: set<string>, subdirs: set<string>, env: Env)
    requires !ReachesConversion(env)
    ensures var r := RunOnce(dirPath, texName, files, subdirs, env, []);
            && r.files == files
            && r.events == [Message(CheckingText), Progress(10), Message(InstallingText), Progress(20),
                            Error(RunFailureText(InstallMiktex(env).message)), Finished]
            && (!env.installerPresent ==> InstallMiktex(env).message == InstallerMissingText)
            && (env.installerPresent && env.installerStartFails ==>
                  InstallMiktex(env).message == env.installerStartErrorText)
            && (env.installerPresent && !env.installerStartFails ==>
                  InstallMiktex(env).message == InstallerFailedText(env.installerStderr))
  {
  }

  /** A missing .tex: `convert_to_pdf` reports one error and returns, with
      no launcher written, nothing compiled and nothing cleaned; `run` then
      still reports 100 and "Proceso completado" before `Finished`. */
  lemma MissingTexRun(dirPath: string, texName: string, files: set<string>, subdirs: set<string>, env: Env)
    requires ReachesConversion(env) && !TexPresent(texName, files, subdirs)
    ensures var r := RunOnce(dirPath, texName, files, subdirs, env, []);
            && r.files == files
            && |r.events| >= 4
            && r.events[|r.events| - 4..] ==
               [Error(MissingTexText(Join(dirPath, texName))), Progress(100), Message(DoneText), Finished]
            && ErrorCount(r.events) == 1
            && Progress(70) !in r.events
  {
    var r := RunOnce(dirPath, texName, files, subdirs, env, []);
    RunCounts(dirPath, texName, files, subdirs, env);
    RunProgress(dirPath, texName, files, subdirs, env);
    ProgressOccurs(r.events, 70);
    var before := Prelude(env, []) + [Message(ConvertingText(texName))] + [Progress(60)];
    var body := before + [Error(MissingTexText(Join(dirPath, texName)))];
    assert r.events == body + [Progress(100)] + [Message(DoneText)] + [Finished];
  }

  /** Once pdflatex has run, success is decided only by whether the PDF
      exists afterwards: then the run names the PDF and reports no error;
      otherwise it reports exactly the one "No se pudo generar" error. */
  lemma PdfVerdict(dirPath: string, texName: string, files: set<string>, subdirs: set<string>, env: Env)
    requires ReachesConversion(env) && Compiles(texName, files, subdirs, env)
    ensures var t := RunOnce(dirPath, texName, files, subdirs, env, []).events;
            && (PdfProduced(texName, files, subdirs, env) ==>
                  Message(PdfWrittenText(Join(dirPath, PdfName(Stem(texName))))) in t && ErrorCount(t) == 0)
            && (!PdfProduced(texName, files, subdirs, env) ==>
                  Error(NoPdfText) in t && ErrorCount(t) == 1)
  {
    RunCounts(dirPath, texName, files, subdirs, env);
    var before := Prelude(env, []) + [Message(ConvertingText(texName))] + [Progress(60)];
    var c := Convert(dirPath, texName, files, subdirs, env, before);
    var last := c.events[|c.events| - 1];
    assert last in c.events;
  }

  /** A non-empty name has a non-empty stem. */
  lemma StemNonEmpty(name: string)
    requires name != ""
    ensures Stem(name) != ""
  {
  }

  /** `{stem}.pdf` of a non-empty stem has the suffix .pdf, so the cleanup
      keeps it. */
  lemma {:induction false} PdfNameKept(stem: string)
    requires stem != ""
    ensures Suffix(PdfName(stem)) == ".pdf" && HasKeptSuffix(PdfName(stem))
  {
    var n := PdfName(stem);
    assert n[|stem|] == '.';
    assert n[|stem| + 1..] == "pdf";
    assert LastDot(n) == |stem|;
    assert n[|stem|..] == ".pdf";
    assert Lower(".pdf") == ".pdf";
  }

  /** A PDF left by an earlier run counts as success even when pdflatex
      produces nothing: only existence is checked. */
  lemma StalePdfSucceeds(texName: string, files: set<string>, subdirs: set<string>, env: Env)
    requires texName != "" && Compiles(texName, files, subdirs, env)
    requires PdfName(Stem(texName)) in files
    ensures PdfProduced(texName, files, subdirs, env)
  {
    var stem := Stem(texName);
    StemNonEmpty(texName);
    PdfNameKept(stem);
    assert PdfName(stem) != BatName by {
      assert PdfName(stem)[|PdfName(stem)| - 1] == 'f';
      assert BatName[|BatName| - 1] == 't';
    }
    assert !Generated(PdfName(stem), stem);
  }

  /** After pdflatex has run, the directory's regular files are exactly the
      ones before, the launcher and pdflatex's output, minus every
      by-product and the launcher, except those whose deletion failed. */
  lemma CleanupAfterCompile(dirPath: string, texName: string, files: set<string>, subdirs: set<string>, env: Env)
    requires ReachesConversion(env) && Compiles(texName, files, subdirs, env)
    ensures var r := RunOnce(dirPath, texName, files, subdirs, env, []);
            forall f :: f in r.files <==>
              && (f in files || f == BatName || (f in env.produced && f !in subdirs))
              && (f in env.locked || (!Generated(f, Stem(texName)) && f != BatName))
  {
  }

  /** When the launcher cannot be started, `convert_to_pdf` reports the
      error and skips the cleanup, so compile_tex.bat stays behind. */
  lemma LaunchFailureLeavesLauncher(dirPath: string, texName: string, files: set<string>, subdirs: set<string>,
                                    env: Env)
    requires ReachesConversion(env) && TexPresent(texName, files, subdirs)
    requires !env.batWriteDenied && BatName !in subdirs && env.launchFails
    ensures var r := RunOnce(dirPath, texName, files, subdirs, env, []);
            r.files == files + {BatName} &&
            Error(ConvertFailureText(env.launchErrorText)) in r.events
  {
  }

  /** The cleanup keeps every regular file outside the `{stem}.*` listing
      (compile_tex.bat aside) and every `{stem}.*` file whose suffix is .tex
      or .pdf in any letter case; it removes every other `{stem}.*` file and
      the launcher unless unlinking them fails. Non-file entries are never
      touched (they are not in `files`; see `LatexConverter.subdirs`). */
  lemma CleanupLaw(files: set<string>, stem: string, locked: set<string>)
    ensures Cleaned(files, stem, locked) <= files
    ensures forall f :: f in files && !MatchesStem(f, stem) && f != BatName ==> f in Cleaned(files, stem, locked)
    ensures forall f :: f in files && MatchesStem(f, stem) && HasKeptSuffix(f) && f != BatName ==>
                          f in Cleaned(files, stem, locked)
    ensures forall f :: f in files && f !in locked && (Generated(f, stem) || f == BatName) ==>
                          f !in Cleaned(files, stem, locked)
    ensures forall f :: f in files && f in locked ==> f in Cleaned(files, stem, locked)
  {
  }

  /** A second cleanup removes nothing more. */
  lemma CleanupIdempotent(files: set<string>, stem: string, locked: set<string>)
    ensures Cleaned(Cleaned(files, stem, locked), stem, locked) == Cleaned(files, stem, locked)
  {
  }

  /** The source file itself survives the cleanup exactly when the glob on
      its stem does not list it (it has no suffix), its suffix is .tex or
      .pdf in some letter case, or it cannot be deleted: a source chosen
      through "Todos los archivos (*)" with another suffix is deleted. */
  lemma SourceSurvivesIff(texName: string, files: set<string>, locked: set<string>)
    requires texName in files && texName != BatName
    ensures texName in Cleaned(files, Stem(texName), locked) <==>
            Suffix(texName) == "" || HasKeptSuffix(texName) || texName in locked
  {
  }

  /** Running again after a successful run succeeds again when the source
      has the suffix .tex (or .pdf), in any environment where pdflatex runs
      again: the source and the PDF both survive the first cleanup, and the
      PDF left behind is enough for the second verdict. */
  lemma SecondRunSucceeds(dirPath: string, texName: string, files: set<string>, subdirs: set<string>,
                          env: Env, env2: Env)
    requires ReachesConversion(env) && PdfProduced(texName, files, subdirs, env)
    requires texName != BatName && HasKeptSuffix(texName)
    requires ReachesConversion(env2) && !env2.batWriteDenied && !env2.launchFails
    ensures var r := RunOnce(dirPath, texName, files, subdirs, env, []);
            && PdfProduced(texName, r.files, subdirs, env2)
            && ErrorCount(RunOnce(dirPath, texName, r.files, subdirs, env2, []).events) == 0
  {
    var r := RunOnce(dirPath, texName, files, subdirs, env, []);
    assert texName in r.files || texName in subdirs;
    if PdfName(Stem(texName)) in r.files {
      StalePdfSucceeds(texName, r.files, subdirs, env2);
    }
    RunCounts(dirPath, texName, r.files, subdirs, env2);
  }

  /** A run only adds and removes regular files, so a name that is a
      regular file is never also another kind of entry afterwards. */
  lemma RunKeepsEntryKinds(dirPath: string, texName: string, files: set<string>, subdirs: set<string>, env: Env)
    requires files !! subdirs
    ensures RunOnce(dirPath, texName, files, subdirs, env, []).files !! subdirs
  {
  }

  /** The window creates a new converter for every conversion and starts
      it; what it then receives is a well-formed trace of one run. */
  method RunFreshConverter(dirPath: string, texName: string, files: set<string>, subdirs: set<string>, env: Env)
    returns (events: seq<Event>, after: set<string>)
    requires files !! subdirs
    ensures WellFormedRun(events)
    ensures events == RunOnce(dirPath, texName, files, subdirs, env, []).events
    ensures after == RunOnce(dirPath, texName, files, subdirs, env, []).files
  {
    var converter := new LatexConverter(dirPath, texName, files, subdirs);
    converter.Run(env);
    RunWellFormed(dirPath, texName, files, subdirs, env);
    events, after := converter.events, converter.files;
  }
}
