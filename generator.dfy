/**
 * `generate_document`: build the template and output paths under the
 * backend directory, create the output directory, refuse a missing
 * template, render it with the expanded answers and save it under a
 * fresh timestamped name.
 *
 * The file system, the clock and the template engine are outside the
 * model: the backend directory, the set of paths that exist when the
 * template is looked up, the current time and how each library call ends
 * are parameters, and what the function asks of the outside world is
 * returned as a list of effects.
 */
module Generator {
  import opened Wrappers
  import opened Text
  import opened Paths
  import opened KeyExpansion
  import opened OutputName

  /** What `generate_document` asks of the outside world, in order. */
  datatype Effect =
    | MakeDirs(path: string)                  // os.makedirs(output_dir, exist_ok=True)
    | LoadTemplate(path: string)              // DocxTemplate(template_path)
    | Render(context: map<string, string>)    // doc.render(expanded_context)
    | Save(path: string)                      // doc.save(output_path)

  /** How one library call ends: it returns, or it raises an exception with a message. */
  datatype Outcome = Returns | Raises(message: string)

  /** How each of the four library calls ends, in call order. */
  datatype Library = Library(makeDirs: Outcome, load: Outcome, render: Outcome, save: Outcome)

  /**
   * Why `generate_document` raises: the `FileNotFoundError` of a missing
   * template, or an exception of a library call, which propagates unchanged.
   */
  datatype GenerateError =
    | TemplateNotFound(message: string)
    | Raised(call: Effect, message: string)

  /** `os.path.join(base_dir, "templates", template_filename)`. */
  function TemplatePath(baseDir: string, templateFilename: string): string
  {
    PathJoin(PathJoin(baseDir, "templates"), templateFilename)
  }

  /** `os.path.join(base_dir, "output")`. */
  function OutputDir(baseDir: string): string
  {
    PathJoin(baseDir, "output")
  }

  /** `os.path.join(output_dir, output_filename)`. */
  function OutputPath(baseDir: string, templateFilename: string, now: DateTime): string
  {
    PathJoin(OutputDir(baseDir), OutputFilename(templateFilename, now))
  }

  /** The library calls of a run that finds its template, in order. */
  function Calls(baseDir: string, templateFilename: string, userData: Items, now: DateTime): (calls: seq<Effect>)
    ensures |calls| == 4
  {
    [MakeDirs(OutputDir(baseDir)),
     LoadTemplate(TemplatePath(baseDir, templateFilename)),
     Render(Expanded(userData)),
     Save(OutputPath(baseDir, templateFilename, now))]
  }

  function Outcomes(lib: Library): seq<Outcome>
  {
    [lib.makeDirs, lib.load, lib.render, lib.save]
  }

  /** The index of the first outcome that raises, or `|outs|` when none does. */
  function FirstRaise(outs: seq<Outcome>): (n: nat)
    ensures n <= |outs|
    ensures n < |outs| ==> outs[n].Raises?
    ensures forall i :: 0 <= i < n ==> outs[i].Returns?
  {
    if |outs| == 0 || outs[0].Raises? then 0 else 1 + FirstRaise(outs[1..])
  }

  lemma FirstRaiseOfLibrary(lib: Library)
    ensures FirstRaise(Outcomes(lib))
            == if lib.makeDirs.Raises? then 0 else if lib.load.Raises? then 1
               else if lib.render.Raises? then 2 else if lib.save.Raises? then 3 else 4
  {
    var outs := Outcomes(lib);
    assert outs[1..] == [lib.load, lib.render, lib.save];
    assert outs[1..][1..] == [lib.render, lib.save];
    assert outs[1..][1..][1..] == [lib.save];
    assert outs[1..][1..][1..][1..] == [];
  }

  /**
   * `generate_document(template_filename, user_data)` with the backend
   * directory `baseDir`, the paths that exist when the template is checked,
   * the clock reading `now` and the outcome of each library call. A missing
   * template is reported only when `os.makedirs` returned; otherwise the
   * calls are made in order up to the first one that raises, whose exception
   * is the result, and a run in which every call returns yields the path of
   * the saved file.
   */
  method GenerateDocument(baseDir: string, templateFilename: string, userData: Items,
                          existing: set<string>, now: DateTime, lib: Library)
    returns (effects: seq<Effect>, result: Result<string, GenerateError>)
    ensures result == Failure(TemplateNotFound("Template not found at " + TemplatePath(baseDir, templateFilename)))
            <==> lib.makeDirs.Returns? && TemplatePath(baseDir, templateFilename) !in existing
    ensures lib.makeDirs.Returns? && TemplatePath(baseDir, templateFilename) !in existing ==>
              effects == [MakeDirs(OutputDir(baseDir))]
    ensures lib.makeDirs.Raises? || TemplatePath(baseDir, templateFilename) in existing ==>
              var n := FirstRaise(Outcomes(lib));
              var calls := Calls(baseDir, templateFilename, userData, now);
              && effects == calls[..if n < 4 then n + 1 else 4]
              && result == if n < 4 then Failure(Raised(calls[n], Outcomes(lib)[n].message))
                           else Success(OutputPath(baseDir, templateFilename, now))
    ensures result.Success? <==>
              TemplatePath(baseDir, templateFilename) in existing && forall i :: 0 <= i < 4 ==> Outcomes(lib)[i].Returns?
  {
    FirstRaiseOfLibrary(lib);
    ghost var calls := Calls(baseDir, templateFilename, userData, now);
    var templatePath := PathJoin(PathJoin(baseDir, "templates"), templateFilename);
    var outputDir := PathJoin(baseDir, "output");

    effects := [MakeDirs(outputDir)];
    if lib.makeDirs.Raises? {
      return effects, Failure(Raised(MakeDirs(outputDir), lib.makeDirs.message));
    }

    if templatePath !in existing {
      return effects, Failure(TemplateNotFound("Template not found at " + templatePath));
    }

    effects := effects + [LoadTemplate(templatePath)];
    if lib.load.Raises? {
      return effects, Failure(Raised(LoadTemplate(templatePath), lib.load.message));
    }

    var expandedContext := ExpandKeys(userData);
    effects := effects + [Render(expandedContext)];
    if lib.render.Raises? {
      assert effects == calls[..3];
      return effects, Failure(Raised(Render(expandedContext), lib.render.message));
    }

    var timestamp := Timestamp(now);
    var cleanName := Splitext(templateFilename).0;
    var outputFilename := cleanName + "_Final_" + timestamp + ".docx";
    var outputPath := PathJoin(outputDir, outputFilename);

    effects := effects + [Save(outputPath)];
    if lib.save.Raises? {
      assert effects == calls[..4];
      return effects, Failure(Raised(Save(outputPath), lib.save.message));
    }
    return effects, Success(outputPath);
  }

  /** The output directory is never empty and never ends with a separator. */
  lemma OutputDirShape(baseDir: string)
    ensures |OutputDir(baseDir)| > 0 && OutputDir(baseDir)[|OutputDir(baseDir)| - 1] != '/'
  {
  }

  /**
   * For a relative template name the output path is the output directory, a
   * `/`, and the output file name, which keeps any directory parts of the
   * template name (`sub/t.docx` lands in `output/sub`, `../t.docx` outside
   * `output`); an absolute name replaces the output directory altogether, so
   * the file is written next to the template's own path.
   */
  lemma OutputPathLocation(baseDir: string, templateFilename: string, now: DateTime)
    ensures |templateFilename| == 0 || templateFilename[0] != '/' ==>
              OutputPath(baseDir, templateFilename, now)
              == OutputDir(baseDir) + "/" + OutputFilename(templateFilename, now)
    ensures |templateFilename| > 0 && templateFilename[0] == '/' ==>
              OutputPath(baseDir, templateFilename, now) == OutputFilename(templateFilename, now)
  {
    OutputDirShape(baseDir);
    SplitextSpec(templateFilename);
    var root := Splitext(templateFilename).0;
    var name := OutputFilename(templateFilename, now);
    assert name == root + ("_Final_" + Timestamp(now) + ".docx");
    if |root| > 0 {
      assert name[0] == root[0] == templateFilename[0];
    } else {
      assert name[0] == '_';
    }
  }
}
