/** The machine the pipeline runs on, reduced to what the modelled code
    touches: which directories exist, which files were written, and the
    external commands spawned so far, in order. */
module Host {

  /** One spawned external command. `composer(args, cwd)` is recorded as its
      own kind, because the helper that runs it is not part of this model. */
  datatype Command =
    | Run(program: string, args: seq<string>, cwd: string)
    | Composer(args: seq<string>, cwd: string)

  /** The values `os.EOL` takes. */
  predicate ValidEol(eol: string) {
    eol == "\n" || eol == "\r\n"
  }

  class Workspace {
    var dirs: set<string>
    var files: map<string, string>
    var commands: seq<Command>

    constructor (dirs: set<string>, files: map<string, string>)
      ensures this.dirs == dirs && this.files == files && commands == []
    {
      this.dirs := dirs;
      this.files := files;
      commands := [];
    }

    /** `existsSync(path)`: a directory or a file is there. */
    predicate Exists(path: string)
      reads this
    {
      path in dirs || path in files
    }

    /** Spawns `c` and waits for it (`spawnSync`); the model keeps the command. */
    method Spawn(c: Command)
      modifies this
      ensures commands == old(commands) + [c]
      ensures dirs == old(dirs) && files == old(files)
    {
      commands := commands + [c];
    }

    /** `mkdirSync(path)`. */
    method Mkdir(path: string)
      modifies this
      ensures dirs == old(dirs) + {path}
      ensures files == old(files) && commands == old(commands)
    {
      dirs := dirs + {path};
    }

    /** `writeFileSync(path, text)`. */
    method WriteFile(path: string, text: string)
      modifies this
      ensures files == old(files)[path := text]
      ensures dirs == old(dirs) && commands == old(commands)
    {
      files := files[path := text];
    }
  }
}
