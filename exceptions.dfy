/** The exceptions the recorder raises or lets through. */
module Exceptions {

  datatype Error =
    | TransportFailure(reason: string)  // whatever requests' Session.send raised, re-raised unchanged
    | FileNotFound                       // read_text on a cassette file that does not exist
    | JsonDecodeError                    // json.loads on text that is not JSON (a ValueError)
    | KeyError(key: string)              // value[key] on a JSON object without that key
    | TypeError                          // value[key] on a JSON value that is not an object, or iterating a scalar
    | AttributeError                     // cassette.append when the cassette is not a list
    | ConnectionRefused                  // responses: a live request that no registered stub matches
}
