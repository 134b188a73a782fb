/** The shell's commands, as the argument parser hands them over. Parsing the
    line itself is not part of this model. */
module Flags {
  import opened Wrappers

  /** The sub-commands of `info`. */
  datatype InfoCommands =
    | Tables
    | Key(key: string)
    | Table(tablename: string)

  datatype Commands =
    | Set(filepath: string)
    | Use(tablename: string)
    | Info(command: Option<InfoCommands>)
    | Edit
    | Create(tablename: string)
    | Delete(tablename: string)
    | New(databasename: string)
    | Exit
}
