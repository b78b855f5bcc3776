/** The six switches of the component's preferences form. */
module Preferences {

  /** A snapshot of `preferenciesForm.value`, read by every pass of one run. */
  datatype Options = Options(
    title: bool,
    squareVariables: bool,
    curlyVariables: bool,
    imports: bool,
    footer: bool,
    noStrong: bool)

  /** Every form control starts switched on. */
  const Defaults: Options := Options(true, true, true, true, true, true)
}
