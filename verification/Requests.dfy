/** Access requests and constraints, and their type names. */
module Requests {
  import opened Wrappers
  import opened MachineInt

  type PluginId = nat

  /**
   * The text of a plugin id in a request or constraint together with what parsing it yields, so
   * that the UUID parser stays out of the model while two spellings of one id stay different texts.
   */
  datatype PluginText = PluginText(text: string, parsed: Option<PluginId>)

  datatype Request =
    | FileAccess(path: string, read: bool, write: bool, execute: bool)
    | NetworkAccess(host: Option<string>, port: Option<nat>, connect: bool, listen: bool, bind: bool)
    | MemoryAccess(address: usize, size: usize, read: bool, write: bool)
    | CallAccess(plugin: PluginText, func: string)
    | MessageAccess(topic: string, recipient: Option<string>)
    | CustomAccess(kind: string, details: string)

  datatype Constraint =
    | FilePath(path: string)
    | FileOperation(read: bool, write: bool, execute: bool)
    | NetworkHost(host: string)
    | NetworkPort(port: nat)
    | NetworkOperation(connect: bool, listen: bool, bind: bool)
    | MemoryRange(base: usize, size: usize, read: bool, write: bool)
    | CallConstraint(plugin: PluginText, func: string)
    | MessageTopic(topic: string)
    | CustomConstraint(kind: string, value: string)

  /** The capability type a constraint belongs to, as `CompositeCapability::constrain` groups it. */
  function ConstraintType(c: Constraint): string {
    match c
    case FilePath(_) => "file"
    case FileOperation(_, _, _) => "file"
    case NetworkHost(_) => "network"
    case NetworkPort(_) => "network"
    case NetworkOperation(_, _, _) => "network"
    case MemoryRange(_, _, _, _) => "memory"
    case CallConstraint(_, _) => "plugin_call"
    case MessageTopic(_) => "message"
    case CustomConstraint(kind, _) => kind
  }

  /** The type name `CombineCapability::permits` derives from a request: every custom request is "custom". */
  function RequestType(r: Request): string {
    match r
    case FileAccess(_, _, _, _) => "file"
    case NetworkAccess(_, _, _, _, _) => "network"
    case MemoryAccess(_, _, _, _) => "memory"
    case CallAccess(_, _) => "plugin_call"
    case MessageAccess(_, _) => "message"
    case CustomAccess(_, _) => "custom"
  }

  /** The key `find_capability_for_request` looks up: a custom request names its own type. */
  function LookupKey(r: Request): string {
    match r
    case CustomAccess(kind, _) => kind
    case _ => RequestType(r)
  }
}
