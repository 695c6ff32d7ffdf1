/**
 * The exceptions the galaxy parser raises, as error values.
 * FailedDiscernment and NonExistingGalaxy are the package's own exceptions
 * (src/galaxy_parser/exceptions.py); KeyError and IndexError are the Python
 * built-ins raised by dictionary lookups and list indexing in the modelled code.
 */
module Exceptions {

  datatype Error =
    | FailedDiscernment
    | NonExistingGalaxy(name: string)
    | KeyError(key: string)
    | IndexError
}
