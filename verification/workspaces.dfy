/** The workspace description (`angular.json`) as the workspace API presents
    it to the schematics: projects by name, each with its targets by name. */
module Workspaces {
  import opened Wrappers
  import opened Json

  /** A build target: the builder that runs it, its options and its named
      configurations (option sets by configuration name), each absent when
      the target has none. */
  datatype Target = Target(builder: string, options: Option<map<string, Json>>,
                           configurations: Option<map<string, map<string, Json>>>)

  /** A project: its targets and its free-form extension fields
      (`schematics`, `prefix`, ...). */
  datatype Project = Project(targets: map<string, Target>, extensions: map<string, Json>)

  /** The workspace: its projects and its free-form extension fields
      (`cli`, `defaultProject`, ...). */
  datatype Workspace = Workspace(projects: map<string, Project>, extensions: map<string, Json>)
}
