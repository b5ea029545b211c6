/** Settings the command loader reads from `cli_app.config`. That file is not
    part of this model; the bound below is the documented maximum length of a
    command name. */
module Config {

  /** `COMMAND_NAME_MAX_LENGTH`: the longest command name the loader accepts,
      and the width of the name column in the help table. */
  const MAX: nat := 20
}
