/** The conversion task `LatexConverter` of KiwiTex.py: check for MiKTeX,
    install it when absent, compile the .tex with pdflatex through a
    generated `compile_tex.bat`, clean up the by-products and report through
    an event trace.

    The directory that holds the .tex file is also the output directory (the
    window always passes the .tex file's parent as `output_dir`). It is
    modelled as the set of names of its regular files, which the task changes,
    and the set of names of its other entries (sub-directories), which it
    never changes. Everything the task learns from outside (does pdflatex.exe
    exist, what the installer returns, which files pdflatex leaves, which
    files refuse to be deleted) is an `Env` oracle fixed for one run. */
module Converter {
  import opened Paths
  import opened Events

  /** Name of the launcher script written next to the .tex file. */
  const BatName: string := "compile_tex.bat"

  /** Location of the MiKTeX installer, relative to the application folder. */
  const InstallerPath: string := "requirements\\basic-miktex-24.1-x64.exe"

  const CheckingText: string := "Verificando instalación de MiKTeX..."
  const InstallingText: string := "Instalando MiKTeX..."
  const DoneText: string := "Proceso completado"
  const NoPdfText: string := "No se pudo generar el archivo PDF"
  const InstallerMissingText: string := "No se encontró el instalador de MiKTeX en: " + InstallerPath

  function Join(dir: string, name: string): string { dir + "\\" + name }
  function PdfName(stem: string): string { stem + ".pdf" }
  function ConvertingText(texName: string): string { "Convirtiendo " + texName + " a PDF..." }
  function RunningText(texName: string): string { "Ejecutando pdflatex en " + texName + "..." }
  function PdfWrittenText(pdfPath: string): string { "PDF generado en: " + pdfPath }
  function MissingTexText(texPath: string): string { "Error: El archivo " + texPath + " no existe" }
  function InstallerFailedText(stderr: string): string { "Error durante la instalación de MiKTeX: " + stderr }
  function RunFailureText(detail: string): string { "Error durante la conversión: " + detail }
  function ConvertFailureText(detail: string): string { "Error durante la conversión a PDF: " + detail }

  /** What the outside world answers during one run. */
  datatype Env = Env(
    compilerPresent: bool,     // check_miktex: pdflatex.exe exists at its fixed path
    installerPresent: bool,    // the bundled installer exists
    installerStartFails: bool, // subprocess.run of the installer raises (an OSError)
    installerStartErrorText: string, // str() of that exception
    installerExitCode: int,    // its return code
    installerStderr: string,   // its captured standard error
    batWriteDenied: bool,      // open(compile_tex.bat, 'w') raises
    writeErrorText: string,    // str() of that exception
    launchFails: bool,         // subprocess.run of the launcher raises
    launchErrorText: string,   // str() of that exception
    produced: set<string>,     // regular files pdflatex leaves in the directory
    locked: set<string>)       // files whose unlink raises (and is ignored)

  /** The outcome of `install_miktex`: it returns or raises with a message. */
  datatype Outcome = Installed | Raised(message: string)

  /** `install_miktex`: a missing installer raises FileNotFoundError; an
      installer that cannot be started re-raises the exception of
      `subprocess.run`; a non-zero return code raises RuntimeError carrying
      the installer's standard error; only a present installer that starts
      and returns 0 succeeds. */
  function InstallMiktex(env: Env): (r: Outcome)
    ensures r.Installed? <==>
              env.installerPresent && !env.installerStartFails && env.installerExitCode == 0
    ensures !env.installerPresent ==> r == Raised(InstallerMissingText)
    ensures env.installerPresent && env.installerStartFails ==>
              r == Raised(env.installerStartErrorText)
    ensures env.installerPresent && !env.installerStartFails && env.installerExitCode != 0 ==>
              r == Raised(InstallerFailedText(env.installerStderr))
  {
    if !env.installerPresent then Raised(InstallerMissingText)
    else if env.installerStartFails then Raised(env.installerStartErrorText)
    else if env.installerExitCode != 0 then Raised(InstallerFailedText(env.installerStderr))
    else Installed
  }

  /** A regular file the glob `{stem}.*` lists whose lower-cased suffix is
      neither .tex nor .pdf: the by-products `clean_generated_files` deletes. */
  predicate Generated(name: string, stem: string)
  {
    MatchesStem(name, stem) && !HasKeptSuffix(name)
  }

  /** The regular files left by `clean_generated_files`: every by-product and
      the launcher script are unlinked, except those whose unlink fails. */
  function Cleaned(files: set<string>, stem: string, locked: set<string>): set<string>
  {
    set f | f in files && (f in locked || (!Generated(f, stem) && f != BatName))
  }

  datatype ConvertResult = ConvertResult(files: set<string>, events: seq<Event>, ok: bool)

  /** `convert_to_pdf` on the regular files `files` and other entries
      `subdirs` of the directory `dirPath` holding `texName`, appending to
      the trace `before`. Every failure, raised or detected, becomes one
      `Error` event and the result false. */
  function Convert(dirPath: string, texName: string, files: set<string>, subdirs: set<string>,
                   env: Env, before: seq<Event>): ConvertResult
  {
    var stem := Stem(texName);
    if texName !in files && texName !in subdirs then
      ConvertResult(files, before + [Error(MissingTexText(Join(dirPath, texName)))], false)
    else
      var started := before + [Message(RunningText(texName))] + [Progress(70)];
      if env.batWriteDenied || BatName in subdirs then
        ConvertResult(files, started + [Error(ConvertFailureText(env.writeErrorText))], false)
      else if env.launchFails then
        ConvertResult(files + {BatName}, started + [Error(ConvertFailureText(env.launchErrorText))], false)
      else
        var cleaned := Cleaned(files + {BatName} + (env.produced - subdirs), stem, env.locked);
        if PdfName(stem) in cleaned || PdfName(stem) in subdirs then
          ConvertResult(cleaned, started + [Message(PdfWrittenText(Join(dirPath, PdfName(stem))))] + [Progress(100)], true)
        else
          ConvertResult(cleaned, started + [Error(NoPdfText)], false)
  }

  /** Whether `convert_to_pdf` gets as far as running pdflatex and the cleanup. */
  predicate Compiles(texName: string, files: set<string>, subdirs: set<string>, env: Env)
  {
    (texName in files || texName in subdirs) && !env.batWriteDenied && BatName !in subdirs && !env.launchFails
  }

  /** The trace after the check and, when pdflatex is missing, the install
      steps; an installer failure leaves out the 50. */
  function Prelude(env: Env, before: seq<Event>): seq<Event>
  {
    var checked := before + [Message(CheckingText)] + [Progress(10)];
    if env.compilerPresent then checked
    else
      var installing := checked + [Message(InstallingText)] + [Progress(20)];
      if InstallMiktex(env).Installed? then installing + [Progress(50)] else installing
  }

  /** Whether the run gets past the install stage. */
  predicate ReachesConversion(env: Env)
  {
    env.compilerPresent || InstallMiktex(env).Installed?
  }

  datatype RunResult = RunResult(files: set<string>, events: seq<Event>)

  /** `run`: the install stage's exception is caught and reported; whatever
      `convert_to_pdf` reports, the run then emits 100 and "Proceso
      completado"; `finally` emits `Finished`. */
  function RunOnce(dirPath: string, texName: string, files: set<string>, subdirs: set<string>,
                   env: Env, before: seq<Event>): RunResult
  {
    var prelude := Prelude(env, before);
    if !ReachesConversion(env) then
      RunResult(files, prelude + [Error(RunFailureText(InstallMiktex(env).message))] + [Finished])
    else
      var c := Convert(dirPath, texName, files, subdirs, env,
                       prelude + [Message(ConvertingText(texName))] + [Progress(60)]);
      RunResult(c.files, c.events + [Progress(100)] + [Message(DoneText)] + [Finished])
  }

  class LatexConverter {
    /** The directory holding the .tex file, which is also the output directory. */
    const dirPath: string
    /** The name of the .tex file inside that directory. */
    const texName: string
    /** Entries of the directory that are not regular files. */
    const subdirs: set<string>
    /** Regular files of the directory. */
    var files: set<string>
    /** Everything emitted so far, oldest first. */
    var events: seq<Event>

    /** A name is either a regular file or another kind of entry. */
    ghost predicate Valid()
      reads this
    {
      files !! subdirs
    }

    constructor (dirPath: string, texName: string, files: set<string>, subdirs: set<string>)
      requires files !! subdirs
      ensures Valid()
      ensures this.dirPath == dirPath && this.texName == texName
      ensures this.files == files && this.subdirs == subdirs && events == []
    {
      this.dirPath := dirPath;
      this.texName := texName;
      this.files := files;
      this.subdirs := subdirs;
      events := [];
    }

    /** One signal emission. */
    method Emit(e: Event)
      modifies this`events
      ensures events == old(events) + [e]
    {
      events := events + [e];
    }

    /** `clean_generated_files`: walk the glob listing of `{stem}.*`, unlink
        each regular file whose lower-cased suffix is neither .tex nor .pdf,
        then unlink compile_tex.bat; failed unlinks are ignored, so the
        result is always true. */
    method CleanGeneratedFiles(locked: set<string>) returns (ok: bool)
      requires Valid()
      modifies this`files
      ensures Valid()
      ensures ok
      ensures files == Cleaned(old(files), Stem(texName), locked)
    {
      var stem := Stem(texName);
      var listed := set f | f in files + subdirs && MatchesStem(f, stem);
      var pending := listed;
      while pending != {}
        invariant pending <= listed
        invariant files == set f | f in old(files) &&
                                   !(f in listed - pending && Generated(f, stem) && f !in locked)
        decreases pending
      {
        var f :| f in pending;
        if !HasKeptSuffix(f) && f in files {
          if f !in locked {
            files := files - {f};
          }
        }
        pending := pending - {f};
      }
      if BatName in files || BatName in subdirs {
        if BatName in files && BatName !in locked {
          files := files - {BatName};
        }
      }
      ok := true;
    }

    /** `convert_to_pdf`. */
    method ConvertToPdf(env: Env) returns (ok: bool)
      requires Valid()
      modifies this
      ensures Valid()
      ensures var c := Convert(dirPath, texName, old(files), subdirs, env, old(events));
              files == c.files && events == c.events && ok == c.ok
    {
      if texName !in files && texName !in subdirs {
        Emit(Error(MissingTexText(Join(dirPath, texName))));
        return false;
      }
      var stem := Stem(texName);
      var pdf := PdfName(stem);
      Emit(Message(RunningText(texName)));
      Emit(Progress(70));
      if env.batWriteDenied || BatName in subdirs {
        Emit(Error(ConvertFailureText(env.writeErrorText)));
        return false;
      }
      files := files + {BatName};
      if env.launchFails {
        Emit(Error(ConvertFailureText(env.launchErrorText)));
        return false;
      }
      files := files + (env.produced - subdirs);
      var _ := CleanGeneratedFiles(env.locked);
      if pdf in files || pdf in subdirs {
        Emit(Message(PdfWrittenText(Join(dirPath, pdf))));
        Emit(Progress(100));
        ok := true;
      } else {
        Emit(Error(NoPdfText));
        ok := false;
      }
    }

    /** `run`, with its try/except/finally. */
    method Run(env: Env)
      requires Valid()
      modifies this
      ensures Valid()
      ensures var r := RunOnce(dirPath, texName, old(files), subdirs, env, old(events));
              files == r.files && events == r.events
    {
      Emit(Message(CheckingText));
      Emit(Progress(10));
      var failure: Outcome := Installed;
      if !env.compilerPresent {
        Emit(Message(InstallingText));
        Emit(Progress(20));
        failure := InstallMiktex(env);
        if failure.Installed? {
          Emit(Progress(50));
        }
      }
      if failure.Raised? {
        Emit(Error(RunFailureText(failure.message)));
      } else {
        Emit(Message(ConvertingText(texName)));
        Emit(Progress(60));
        var _ := ConvertToPdf(env);
        Emit(Progress(100));
        Emit(Message(DoneText));
      }
      Emit(Finished);
    }
  }
}
