/**
 The records of the editor: chat messages, code snapshots and sessions
 (src/lib/types.ts). Clock and uuid values are plain parameters here:
 a session's `createdAt` is an integer timestamp and every id is a string
 chosen by the caller.
 */
module Types {

  /** A value that may be absent; stands for TypeScript's `T | null` and optional fields. */
  datatype Option<+T> = None | Some(value: T) {

    /** The carried value, or `default` when absent. */
    function GetOr(default: T): T {
      match this
      case Some(v) => v
      case None => default
    }
  }

  datatype Role = User | Assistant | System

  /** One chat turn; `imageUrl` is the reference image a user prompt carried. */
  datatype Message = Message(id: string, role: Role, content: string, imageUrl: Option<string>)

  /** An immutable snapshot of the component source and its stylesheet. */
  datatype CodeVersion = CodeVersion(jsxCode: string, cssCode: string)

  /**
   An editing session. `jsxCode`/`cssCode` are what the editor shows;
   `codeHistory` is the bounded undo/redo timeline and `currentVersion`
   an index into it. The optional `selectedElementId` of the source record
   is never read or written by the editor and is not part of this model.
   */
  datatype Session = Session(
    id: string,
    name: string,
    createdAt: int,
    chatHistory: seq<Message>,
    jsxCode: string,
    cssCode: string,
    uploadedImage: Option<string>,
    codeHistory: seq<CodeVersion>,
    currentVersion: int)

  /**
   A session as read back from storage: records written by older versions
   of the editor have no `codeHistory` (then `currentVersion` is ignored).
   */
  datatype StoredSession = StoredSession(
    id: string,
    name: string,
    createdAt: int,
    chatHistory: seq<Message>,
    jsxCode: string,
    cssCode: string,
    uploadedImage: Option<string>,
    codeHistory: Option<seq<CodeVersion>>,
    currentVersion: int)
}
