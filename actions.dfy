/** The actions dispatched to the store. Both reducers receive every action;
    each acts on its own tags and returns its state for all the others. */
module Actions {
  import opened Entities

  /** A value held by a configuration field. */
  datatype ConfigValue = BoolValue(b: bool) | NumberValue(n: int) | TextValue(s: string)

  /** One constructor per action type. Field names follow the action
      objects, except where two types use the same name for different kinds
      of value: `repo` is `action.repository` of `ADD_REPOSITORY`, and
      `folderKey` / `noteKey` are `action.folder` / `action.note` of
      `REMOVE_FOLDER`, `STAR_NOTE` and `UNSTAR_NOTE`. The folder actions name
      their repository by `key`, the note actions by `repository`. */
  datatype Action =
    | InitAll(data: seq<Repository>)
    | AddRepository(repo: Repository)
    | RemoveRepository(key: string)
    | AddFolder(key: string, folder: Folder)
    | EditFolder(key: string, folder: Folder)
    | RemoveFolder(repository: string, folderKey: string)
    | AddNote(repository: string, note: Note)
    | SaveNote(repository: string, note: Note)
    | StarNote(repository: string, noteKey: string)
    | UnstarNote(repository: string, noteKey: string)
    | SetIsSideNavFolded(isFolded: bool)
    | SetZoom(zoom: int)
    | SetListWidth(listWidth: int)
    | SetConfig(config: map<string, ConfigValue>)
    /** Any other action type, e.g. the router's. `tag` is taken to be none of
        the fourteen types above: those are always built with their own
        constructor, so `Other("ADD_FOLDER")` does not stand for an action. */
    | Other(tag: string)
  {
    /** The ten types the `repositories` reducer handles. */
    predicate ForRepositories()
    {
      InitAll? || AddRepository? || RemoveRepository? || AddFolder? || EditFolder? ||
      RemoveFolder? || AddNote? || SaveNote? || StarNote? || UnstarNote?
    }

    /** The four types the `config` reducer handles. */
    predicate ForConfig()
    {
      SetIsSideNavFolded? || SetZoom? || SetListWidth? || SetConfig?
    }
  }
}
