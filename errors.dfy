/** The application's single error type: a title, a description and an optional list of
    detail items (lib/errors.ts). */
module Errors {
  import opened Wrappers

  datatype AppError = AppError(title: string, description: string, items: Option<seq<string>>)
}
