# KiwiTex conversion task, modelled in Dafny

KiwiTex is a desktop tool that turns one LaTeX file into a PDF with MiKTeX's
`pdflatex`. If MiKTeX is missing, KiwiTex first installs it unattended from a
bundled installer. This project models the background conversion task,
`LatexConverter` in `KiwiTex.py`, and the small value normalisation
`AppLogger._prepare_extra`.

The conversion task reports to the window through four signals. The model
turns them into one event trace:
`Progress(n) | Message(s) | Error(s) | Finished`.

- `run` checks for pdflatex and installs MiKTeX when it is missing. It then
  calls `convert_to_pdf` and always emits `Finished` in its `finally` block.
- `convert_to_pdf` writes `compile_tex.bat`, runs it, calls
  `clean_generated_files` and decides success only by whether
  `{stem}.pdf` exists. It reports every failure as an `Error` and returns
  False. It never raises, so `run` goes on to emit `Progress(100)` and
  "Proceso completado" even after that error. Only an installer failure
  skips them.
- `clean_generated_files` walks the glob `{stem}.*`. It unlinks every
  regular file whose lower-cased suffix is neither `.tex` nor `.pdf`, then
  unlinks `compile_tex.bat`. It ignores failed unlinks and returns True.

Files:

- `paths.dfy` (module `Paths`): pathlib's `suffix` and `stem` (last dot,
  provided it is neither the first nor the last character), ASCII
  lower-casing, and the `{stem}.*` match.
- `events.dfy` (module `Events`): the event type, its projections (error
  count, completion count, progress values) and the well-formedness
  predicate of one run's trace.
- `converter.dfy` (module `Converter`): the outside world as an `Env`
  oracle, the specification functions `InstallMiktex`, `Cleaned`, `Convert`
  and `RunOnce`, and the class `LatexConverter`.
  - The class keeps the directory's regular files (`files`, changed in
    place) and its other entries (`subdirs`, never changed).
  - The class keeps the emitted trace in `events`.
  - Its methods `Run`, `ConvertToPdf` and `CleanGeneratedFiles` each state
    the new state as the matching specification function of the old state.
    `CleanGeneratedFiles` removes files one at a time in a loop over the
    glob listing.
- `laws.dfy` (module `ConverterLaws`): what one run of a freshly created
  converter promises. The window creates a new `LatexConverter` for every
  conversion (KiwiTex.py:900).
- `extra.dfy` (module `LogExtra`): `_prepare_extra` as a loop building the
  `extra` mapping.

Modelling decisions:

- The directory of the `.tex` file is also the output directory. The window
  always passes the `.tex` file's parent as `output_dir` (KiwiTex.py:876), so
  the launcher, the PDF and the cleanup all work in one directory, and
  `mkdir(parents=True, exist_ok=True)` does nothing.
- `Path.exists()` is "in `files` or in `subdirs`", and `is_file()` is "in
  `files`". So a sub-directory named `{stem}.pdf` counts as the PDF,
  exactly as `output_file.exists()` does. A sub-directory named
  `compile_tex.bat` makes writing the launcher fail, and the cleanup's
  `unlink` of it fails silently.
- The outside world gives one answer per run (`Env`):
  - whether pdflatex.exe exists (`check_miktex`);
  - whether the installer exists, whether starting it raises (with the
    exception's text), its return code and its standard error;
  - whether opening the launcher for writing raises, and whether starting
    it raises, each with the exception's text;
  - the set of files pdflatex leaves behind;
  - the set of files whose `unlink` raises.
- The compiler's exit status is not part of the model, because the source
  discards it (`check=False`).
- The model keeps three behaviours of the code that are easy to miss:
  - After the launcher is written, if starting it raises, the cleanup never
    runs and `compile_tex.bat` stays in the directory
    (`LaunchFailureLeavesLauncher`).
  - The cleanup deletes every file of the user's that shares the source's
    stem and has another suffix, such as `a.bib`, `a.sty` or `a.png` next to
    `a.tex` (`CleanupLaw`).
  - A `{stem}.pdf` left by an earlier run makes the run report success even
    when pdflatex produces nothing (`StalePdfSucceeds`).
  - The file dialog also offers "Todos los archivos (*)" (KiwiTex.py:864).
    A source whose suffix is not `.tex` or `.pdf` is listed by its own glob
    and deleted by the cleanup (`SourceSurvivesIff`).

## Model

| member | source | states |
|---|---|---|
| Converter.LatexConverter.Run | KiwiTex.py:249-281 | the new files and trace are those of `RunOnce` from the old state: check, optional install, stop with one error if the installer raised, otherwise convert, then 100, "Proceso completado" and `Finished` in every case |
| Converter.LatexConverter.ConvertToPdf | KiwiTex.py:352-398 | the new files, trace and result are those of `Convert`: a missing .tex gives one error and nothing else; a launcher that cannot be written or started gives one error; otherwise pdflatex's files are added, the cleanup runs, and the result is whether `{stem}.pdf` exists |
| Converter.LatexConverter.CleanGeneratedFiles | KiwiTex.py:323-350 | always returns true; the regular files afterwards are `Cleaned` of those before; the non-file entries are never touched |
| Converter.LatexConverter.constructor | KiwiTex.py:241-247 | a converter for one .tex file in one directory starts with an empty trace |
| Converter.InstallMiktex | KiwiTex.py:290-321 | installation succeeds exactly when the installer exists, starts and returns 0; a missing installer raises with the not-found message; an installer that cannot be started re-raises that exception's text; a non-zero return code raises with the installer's standard error |
| ConverterLaws.RunWellFormed | KiwiTex.py:249-281 | every run's trace has `Finished` exactly once and last, progress values within 0..100 that never decrease, and at most one error |
| ConverterLaws.RunProgress | KiwiTex.py:253-271 | the exact progress sequence: 10; then 20 and 50 only when installing; an installer failure stops after 20; then 60, 70 once the .tex is found, 100 when the PDF exists, and the closing 100 |
| ConverterLaws.RunCounts | KiwiTex.py:275-280 | `Finished` once and last; no error exactly when the run got past installing and the PDF exists, otherwise exactly one |
| ConverterLaws.InstallBranchIff | KiwiTex.py:255-263 | `Progress(20)` occurs iff pdflatex is missing; `Progress(50)` occurs iff pdflatex is missing and the installer succeeded |
| ConverterLaws.InstallFailureRun | KiwiTex.py:259 | an installer failure gives exactly check, 10, installing, 20, the one wrapped error, `Finished`; the directory is unchanged and `convert_to_pdf` is never entered; the error carries the not-found message, the start failure's text or the standard-error message |
| ConverterLaws.MissingTexRun | KiwiTex.py:357-360 | a missing .tex writes no launcher, compiles and cleans nothing, and emits no 70; the trace ends with the one not-found error, 100, "Proceso completado", `Finished` |
| ConverterLaws.PdfVerdict | KiwiTex.py:384-392 | once pdflatex has run, an existing PDF gives the "PDF generado en" message and no error, and a missing PDF gives exactly the one "No se pudo generar" error |
| ConverterLaws.ConvertOkIff | KiwiTex.py:384-387 | `convert_to_pdf` returns true iff pdflatex ran and `{stem}.pdf` exists after the cleanup |
| ConverterLaws.PreludeAdds | KiwiTex.py:252-263 | the check and install stage adds progress 10, then 20 and 50 when installing (only 20 when the installer fails), and no error or completion |
| ConverterLaws.ConvertAdds | KiwiTex.py:352-398 | `convert_to_pdf` adds 70 once the .tex is found, 100 when the PDF exists, one error exactly when it returns false, and no completion |
| ConverterLaws.StalePdfSucceeds | KiwiTex.py:384 | a `{stem}.pdf` already present survives the cleanup, so the run succeeds whatever pdflatex produces |
| ConverterLaws.CleanupAfterCompile | KiwiTex.py:374-382 | after pdflatex has run, the regular files are exactly those before, the launcher and pdflatex's output, minus every by-product and the launcher that could be deleted |
| ConverterLaws.LaunchFailureLeavesLauncher | KiwiTex.py:374-379 | if starting the launcher raises, the error is reported and compile_tex.bat remains, because the cleanup is skipped |
| ConverterLaws.CleanupLaw | KiwiTex.py:327-348 | the cleanup only removes files; it keeps anything outside `{stem}.*` (compile_tex.bat aside), every `{stem}.*` file with suffix .tex or .pdf in any letter case, and every file whose deletion fails; it removes every other `{stem}.*` file and the launcher |
| ConverterLaws.CleanupIdempotent | KiwiTex.py:335-348 | a second cleanup removes nothing more |
| ConverterLaws.SourceSurvivesIff | KiwiTex.py:335-340 | the source file survives the cleanup iff it has no suffix, its suffix is .tex or .pdf in some letter case, or its deletion fails |
| ConverterLaws.SecondRunSucceeds | KiwiTex.py:382-387 | after a successful run on a source with suffix .tex, the next run succeeds with no error in any environment where pdflatex runs again, because the source and the PDF both survive the cleanup |
| ConverterLaws.RunKeepsEntryKinds | KiwiTex.py:374-382 | a run only adds and removes regular files, so no name becomes both a regular file and another kind of entry |
| ConverterLaws.RunFreshConverter | KiwiTex.py:900 | a freshly created converter, once run, holds a well-formed trace equal to `RunOnce` from an empty trace |
| ConverterLaws.PdfNameKept | KiwiTex.py:367 | `{stem}.pdf` of a non-empty stem has the suffix .pdf, so the cleanup keeps it |
| Events.FinishedOnlyAtEnd | KiwiTex.py:279-280 | in a trace with `Finished` once and last, no earlier event is `Finished` |
| Events.EmitOne | KiwiTex.py:236-239 | emitting one signal extends the progress values, error count and completion count by exactly that signal |
| Events.ProgressOccurs | KiwiTex.py:236 | a `Progress(n)` event occurs iff n occurs among the trace's progress values |
| Paths.StemSuffixSplit | KiwiTex.py:329 | a name is its stem followed by its suffix; a non-empty suffix is a dot, at least one more character, and no other dot |
| Paths.MatchesOwnStemIff | KiwiTex.py:335 | the glob `{stem}.*` on a name's own stem lists that name iff the name has a suffix |
| Paths.Lower | KiwiTex.py:336 | lower-casing keeps the length and maps each ASCII capital to its small letter, leaving every other character alone |
| LogExtra.PrepareExtra | KiwiTex.py:170-183 | an empty mapping gives `{}`; otherwise `{'extra': m}` with the same keys, str/int/float/bool/None values unchanged and every other value replaced by its string form |

## Left out

- The PyQt window, its menus, dialogs, stylesheet and widget classes are not
  part of this model. Neither is the success dialog that the window shows
  even after an error.
- `QThread` is not modelled. `run` is one sequential method. The signals
  are appended to a trace in order, which is the order the window receives
  them.
- The logger's set-up, handlers, formatters, the exception hook and the
  `log_*` wrappers are not modelled. Log calls are dropped: the logger is an
  opaque sink.
- `is_admin`, `run_as_admin` and the unused `winreg`/`win32com` imports are
  not modelled. They are Windows calls and an unfinished stub.
- `check_miktex` is the oracle field `Env.compilerPresent`.
  It is a side-effect-free existence test of a fixed path.
- The installer and the launcher are assumed to return. Neither
  `subprocess.run` call has a timeout (KiwiTex.py:304, KiwiTex.py:379), so a
  hung installer or pdflatex blocks `run` for good and no `Finished` is
  emitted. The trace laws (`RunWellFormed`, `RunCounts`, `RunProgress`)
  cover the runs that finish.
- The real installer and pdflatex processes are not modelled. The installer
  is an oracle return code and standard error. pdflatex is the oracle set
  of files it leaves behind.
- The fixed Windows paths are not modelled. The model keeps only the
  installer's path relative to the application folder and the file names
  `compile_tex.bat` and `{stem}.pdf`.
- The launcher's contents are not modelled. Separators and formatting of
  paths inside messages are simplified to `dir + "\" + name`.
- LatexConverter.ConvertToPdf: a failure while writing the launcher after
  `open` succeeded is not modelled separately. It is folded into "writing
  the launcher raises", which adds no file.
- LatexConverter.CleanGeneratedFiles: glob metacharacters in the stem and
  the case-insensitive matching of Windows file names are not modelled.
  Names are compared exactly.
- Paths.Lower: only ASCII letters are lower-cased. For the `.tex`/`.pdf`
  test this matches `str.lower`, because no other character lowers to one
  of those letters.
- LogExtra.PrepareExtra: the key order of the Python dict is not kept
  (Dafny maps are unordered). `float` values are real numbers.
- `mkdir` of the output directory is left out. Under the one-directory
  model it always finds the directory already there.
