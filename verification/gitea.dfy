/** The records the git-hosting toolkit hands to the core, cut down to the
    fields the core reads. */
module Gitea {
  import opened Wrappers

  /** A repository on the hosting service (`name`, `full_name`, `description`) */
  datatype Repository = Repository(name: string, fullName: string, description: string)

  /** The state of a fetched file: its name, its repository-relative path,
      its content (`None` while not loaded) and its browse URL (`html_url`). */
  datatype FileState = FileState(name: string, path: string, content: Option<string>, htmlUrl: string)
}
