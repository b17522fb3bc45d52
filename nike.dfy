/** Nike#just_do_it: run one of two caller-supplied handlers for a
    repository inside a chosen working directory, restoring the process's
    working directory afterwards whatever the handler does.

    The repository's helpers (`name.invert`, `fractional_index`,
    `local_path`, `parent_dir`) are defined elsewhere; their values are
    fields of the repository here. `Git::Meta.interactive?` is a parameter.
    A handler is an opaque function of the repository and the directory it
    runs in, answering whether it completed or what it raised. */
module Nike {

  /** The value of `options[:in_dir]`: `:local_path`, `:parent_dir`, or
      anything else (unset included). */
  datatype InDir = LocalPath | ParentDir | Unspecified

  datatype Repository = Repository(
    invertedName: string,
    fractionalIndex: string,
    localPath: string,
    parentDir: string)

  datatype HandlerKind = Interactive | Pipeline

  /** What Dir.chdir or a handler can raise. */
  datatype Failure = NoSuchDirectory(path: string) | HandlerFailed(reason: string)

  datatype Outcome = Completed | Raised(failure: Failure)

  type Handler = (Repository, string) -> Outcome

  /** What the process did, in order: a line written to standard output, or
      a handler called with a repository in a working directory. */
  datatype Event =
    | Printed(line: string)
    | Called(handler: HandlerKind, repository: Repository, dir: string)

  /** The `case` on `options[:in_dir]`. */
  function WorkingDir(inDir: InDir, repo: Repository, pwd: string): (r: string)
    ensures inDir == LocalPath ==> r == repo.localPath
    ensures inDir == ParentDir ==> r == repo.parentDir
    ensures inDir == Unspecified ==> r == pwd
  {
    match inDir
    case LocalPath => repo.localPath
    case ParentDir => repo.parentDir
    case Unspecified => pwd
  }

  /** `"%s (%s)" % [name.invert, fractional_index]` */
  function IdentificationLine(repo: Repository): (r: string)
    ensures |r| == |repo.invertedName| + |repo.fractionalIndex| + 3
    ensures r[..|repo.invertedName|] == repo.invertedName
    ensures r[|repo.invertedName| + 2..|r| - 1] == repo.fractionalIndex
    ensures r[|repo.invertedName|] == ' ' && r[|repo.invertedName| + 1] == '(' && r[|r| - 1] == ')'
  {
    repo.invertedName + " (" + repo.fractionalIndex + ")"
  }

  /** The process-wide state just_do_it touches: the working directory and
      what has been printed and called so far. */
  class Process {
    /** The directories Dir.chdir can enter. */
    const directories: set<string>
    var cwd: string
    var trace: seq<Event>

    /** The working directory is always a directory that exists. */
    ghost predicate Valid()
      reads this
    {
      cwd in directories
    }

    constructor (directories: set<string>, cwd: string)
      requires cwd in directories
      ensures Valid()
      ensures this.directories == directories && this.cwd == cwd && trace == []
    {
      this.directories := directories;
      this.cwd := cwd;
      trace := [];
    }

    /** `Dir.chdir(dir)` without a block. */
    method Chdir(dir: string) returns (r: Outcome)
      requires Valid()
      modifies this
      ensures Valid()
      ensures trace == old(trace)
      ensures dir in directories ==> r == Completed && cwd == dir
      ensures dir !in directories ==> r == Raised(NoSuchDirectory(dir)) && cwd == old(cwd)
    {
      if dir in directories {
        cwd := dir;
        r := Completed;
      } else {
        r := Raised(NoSuchDirectory(dir));
      }
    }

    /** `just_do_it(interactive, pipeline, options)`. The target directory is
        chosen by `in_dir`; entering it may fail, and then nothing runs.
        Otherwise exactly one handler runs there with the repository: the
        interactive one after the identification line when `interactiveMode`
        holds, the pipeline one with nothing printed when it does not. Its
        outcome, failure included, is the result, and the working directory
        is always the one the call started in. */
    method JustDoIt(repo: Repository, interactive: Handler, pipeline: Handler,
                    interactiveMode: bool, inDir: InDir := Unspecified)
      returns (r: Outcome)
      requires Valid()
      modifies this
      ensures Valid() && cwd == old(cwd)
      ensures inDir == Unspecified ==> WorkingDir(inDir, repo, old(cwd)) in directories
      ensures CallsIn(trace) == CallsIn(old(trace)) + (if WorkingDir(inDir, repo, old(cwd)) in directories then 1 else 0)
      ensures Printings(trace) == Printings(old(trace)) +
        (if WorkingDir(inDir, repo, old(cwd)) in directories && interactiveMode then 1 else 0)
      ensures var target := WorkingDir(inDir, repo, old(cwd));
        if target !in directories then
          r == Raised(NoSuchDirectory(target)) && trace == old(trace)
        else if interactiveMode then
          r == interactive(repo, target) &&
          trace == old(trace) + [Printed(IdentificationLine(repo)), Called(Interactive, repo, target)]
        else
          r == pipeline(repo, target) &&
          trace == old(trace) + [Called(Pipeline, repo, target)]
    {
      var saved := cwd;
      var workingDir := WorkingDir(inDir, repo, cwd);
      var entered := Chdir(workingDir);
      if entered.Raised? {
        return entered;
      }
      var added: seq<Event>;
      if interactiveMode {
        added := [Printed(IdentificationLine(repo)), Called(Interactive, repo, cwd)];
        assert added[1..] == [Called(Interactive, repo, cwd)] && added[1..][1..] == [];
        assert CallsIn(added[1..]) == 1 && Printings(added[1..]) == 0;
        assert CallsIn(added) == 1 && Printings(added) == 1;
        r := interactive(repo, cwd);
      } else {
        added := [Called(Pipeline, repo, cwd)];
        assert added[1..] == [] && !added[0].Printed?;
        assert CallsIn(added[1..]) == 0 && Printings(added[1..]) == 0;
        assert CallsIn(added) == 1 && Printings(added) == 0;
        r := pipeline(repo, cwd);
      }
      CallsAppend(trace, added);
      trace := trace + added;
      // the block form of Dir.chdir returns to `saved` on every exit path
      cwd := saved;
    }
  }

  /** The number of handler calls in a trace. */
  function CallsIn(events: seq<Event>): nat
  {
    if events == [] then 0 else (if events[0].Called? then 1 else 0) + CallsIn(events[1..])
  }

  /** The number of lines printed in a trace. */
  function Printings(events: seq<Event>): nat
  {
    if events == [] then 0 else (if events[0].Printed? then 1 else 0) + Printings(events[1..])
  }

  lemma {:induction false} CallsAppend(a: seq<Event>, b: seq<Event>)
    ensures CallsIn(a + b) == CallsIn(a) + CallsIn(b)
    ensures Printings(a + b) == Printings(a) + Printings(b)
  {
    if a == [] {
      assert a + b == b;
    } else {
      assert (a + b)[1..] == a[1..] + b;
      CallsAppend(a[1..], b);
    }
  }
}
