module TargetTypes {
  datatype TargetType =
    | Executable | StaticLibrary | SharedLibrary | ModuleLibrary | ObjectLibrary
    | InterfaceLibrary | Utility | GlobalTarget | UnknownLibrary
}
