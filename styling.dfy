/** Terminal styling. The linter wraps the reported source line with
    `chalk.red` and the severity with `chalk.bgRed.white`; what those add
    depends on the terminal, so the model keeps both as opaque string
    transformers chosen by the caller, and every property below holds for
    any choice of them. */
module Styling {

  /** `highlight` stands for `chalk.red`, applied to the snippet line that is
      reported; `badge` for `chalk.bgRed.white`, applied to the severity of a
      diagnostic. */
  datatype Style = Style(highlight: (string -> string), badge: (string -> string))
}
